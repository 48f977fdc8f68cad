/**
 * The data repository: the table of named data elements, the datafiles they are saved to,
 * the per-file dirty counters, the recursion guard of putValue, the prefix/ID maps and the
 * consistency bracket.
 *
 * The repository's background threads (realizer, notifier, saver) are not modelled: their
 * work is done at once, or (for data listeners) left out. A datafile is referred to by its
 * position in the list of open datafiles; closing datafiles is not part of this model, so
 * the list only grows.
 */
module Repository {
  import opened Wrappers
  import opened Strings
  import opened DataElements
  import opened Datafiles

  /** The dirty count after one more modification: past MAX_DIRTY the file is saved, which
    * resets the count. */
  function Dirtied(count: nat): (r: nat)
  {
    if count + 1 > MAX_DIRTY then 0 else count + 1
  }

  /** A counter that starts within MAX_DIRTY stays within it, and drops to 0 exactly when
    * the modification that goes past MAX_DIRTY triggers a save. */
  lemma DirtiedBounded(count: nat)
    requires count <= MAX_DIRTY
    ensures Dirtied(count) <= MAX_DIRTY
    ensures Dirtied(count) == 0 <==> count == MAX_DIRTY
    ensures count < MAX_DIRTY ==> Dirtied(count) == count + 1
  {
  }

  /** `after` is `before` with the datafile `f` (if any) marked modified once. */
  ghost predicate DirtyMarked(before: seq<DataFile>, after: seq<DataFile>, f: Option<nat>)
  {
    |after| == |before| &&
    (f.Some? ==> f.value < |before| &&
                 after[f.value] == before[f.value].(dirtyCount := Dirtied(before[f.value].dirtyCount))) &&
    forall i :: 0 <= i < |before| && f != Some(i) ==> after[i] == before[i]
  }

  /** A datafile a new element can be placed in: the file can be written and the name lies
    * under its prefix. */
  predicate Hosts(f: DataFile, name: string)
  {
    f.canWrite && StartsWith(name, f.prefix + "/")
  }

  /** Among the datafiles from position `lo` on, `i` is the one guessDataFile settles on: a
    * host with the longest prefix, the later of two hosts with equally long prefixes. */
  ghost predicate BestHostFrom(files: seq<DataFile>, name: string, lo: nat, i: nat)
  {
    lo <= i < |files| && Hosts(files[i], name) &&
    forall j :: lo <= j < |files| && Hosts(files[j], name) ==>
      |files[j].prefix| < |files[i].prefix| || (|files[j].prefix| == |files[i].prefix| && j <= i)
  }

  /** There is only one best host. */
  lemma BestHostUnique(files: seq<DataFile>, name: string, i: nat, j: nat)
    requires BestHostFrom(files, name, 0, i) && BestHostFrom(files, name, 0, j)
    ensures i == j
  {
  }

  /** The events a new element announces to the repository listeners: none for anonymous
    * names or when notification is off. */
  function Announced(name: string, notify: bool): seq<DataEvent>
  {
    if notify && !StartsWith(name, ANONYMOUS_PREFIX) then [Added(name)] else []
  }

  /** The element after putValue stored `v` in it: getValue first realized it, then
    * setValue replaced its value. */
  function Replaced(e: Element, v: Option<Value>): Element
  {
    SetValue(Realized(e), v)
  }

  /** What getValue reads back from an element holding `v`: a DeferredData is realized. */
  function RealizedValue(v: Option<Value>): Option<Value>
  {
    if IsDeferred(v) then Some(Realize(v.value)) else v
  }

  /** After putValue, getValue gives back the stored value (realized if deferred), and the
    * element keeps its datafile and listeners. */
  lemma ReplacedReadsBack(e: Element, v: Option<Value>)
    ensures CurrentValue(Replaced(e, v)) == RealizedValue(v)
    ensures Replaced(e, v).datafile == e.datafile && Replaced(e, v).listeners == e.listeners
  {
  }

  /** maybeDelete on one element: None when it is thrown away, else the element kept (it was
    * realized when its value was looked at). */
  function AfterMaybeDelete(e: Element): (r: Option<Element>)
    ensures r.None? <==> Discardable(e)
    ensures r.Some? ==> CurrentValue(r.value) == CurrentValue(e) && r.value.datafile == e.datafile &&
                        r.value.listeners == e.listeners
  {
    match e.listeners
    case NeverSubscribed =>
      if Realized(e).value.None? then None else Some(Realized(e))
    case Subscribed(ids) =>
      if ids != [] then Some(e)
      else if Realized(e).value.None? then None
      else if e.datafile.None? then None
      else Some(Realized(e))
  }

  /** The table after maybeDelete(name). */
  function MaybeDeleted(data: map<string, Element>, name: string): (r: map<string, Element>)
    requires name in data
    ensures name !in r <==> Discardable(data[name])
    ensures forall n :: n != name ==> (n in r <==> n in data) && (n in r ==> r[n] == data[n])
  {
    match AfterMaybeDelete(data[name])
    case None => data - {name}
    case Some(e) => data[name := e]
  }

  /** The datafile putValue marks modified when it stores `v` in an existing element: the
    * element's own, when the old and new values differ. */
  function ChangeMark(e: Element, v: Option<Value>): Option<nat>
  {
    if e.datafile.Some? && SaveStringChanged(CurrentValue(e), v) then e.datafile else None
  }

  /** The names of the table kept in datafile `h`, with a value to save. */
  predicate SavedHere(data: map<string, Element>, h: nat, name: string)
  {
    name in data && data[name].datafile == Some(h) && data[name].value.Some?
  }

  /** Every element of datafile `h` is named under the file's prefix. */
  predicate Under(data: map<string, Element>, h: nat, prefix: string)
  {
    forall name :: name in data && data[name].datafile == Some(h) ==> StartsWith(name, prefix + "/")
  }

  lemma SamePrefixedNames(prefix: string, a: string, b: string)
    requires StartsWith(a, prefix + "/") && StartsWith(b, prefix + "/")
    requires a[|prefix| + 1..] == b[|prefix| + 1..]
    ensures a == b
  {
    assert a == a[..|prefix| + 1] + a[|prefix| + 1..];
    assert b == b[..|prefix| + 1] + b[|prefix| + 1..];
  }

  /** The values of datafile `h` as saveDatafile writes them: each name within the file
    * (the part after the prefix and its `/`) with the save string of the element's
    * immediate value, after a `=` when the value cannot be edited. */
  function FileValues(data: map<string, Element>, h: nat, prefix: string): (r: map<string, string>)
    requires Under(data, h, prefix)
    ensures forall name :: SavedHere(data, h, name) ==>
              name[|prefix| + 1..] in r && r[name[|prefix| + 1..]] == SavedText(data[name].value.value)
  {
    LocalNamesDiffer(data, h, prefix);
    map name | name in data.Keys && SavedHere(data, h, name) :: name[|prefix| + 1..] := SavedText(data[name].value.value)
  }

  /** Every name of the saved values is that of an element of the file. */
  lemma FileValuesNames(data: map<string, Element>, h: nat, prefix: string, local: string)
    requires Under(data, h, prefix) && local in FileValues(data, h, prefix)
    ensures SavedHere(data, h, prefix + "/" + local)
  {
    LocalNamesDiffer(data, h, prefix);
    var name :| name in data.Keys && SavedHere(data, h, name) && name[|prefix| + 1..] == local;
    assert name == name[..|prefix| + 1] + local;
  }

  /** Two elements of one datafile have different names within the file. */
  lemma LocalNamesDiffer(data: map<string, Element>, h: nat, prefix: string)
    requires Under(data, h, prefix)
    ensures forall a, b :: SavedHere(data, h, a) && SavedHere(data, h, b) && a[|prefix| + 1..] == b[|prefix| + 1..] ==> a == b
  {
    forall a, b | SavedHere(data, h, a) && SavedHere(data, h, b) && a[|prefix| + 1..] == b[|prefix| + 1..]
      ensures a == b
    {
      SamePrefixedNames(prefix, a, b);
    }
  }

  /** No listener appears twice. */
  predicate Unrepeated(ids: seq<nat>)
  {
    forall i, j :: 0 <= i < j < |ids| ==> ids[i] != ids[j]
  }

  /** `order` lists every name of `values` exactly once. */
  ghost predicate Enumerates(order: seq<string>, values: map<string, string>)
  {
    (forall i :: 0 <= i < |order| ==> order[i] in values) &&
    (forall k :: k in values ==> k in order) &&
    (forall i, j :: 0 <= i < j < |order| ==> order[i] != order[j])
  }

  /** The save loop's state: `order` lists, without repeats, the names of the values to
    * save whose elements are no longer in `k`. */
  ghost predicate SaveOrderSoFar(prefix: string, order: seq<string>, values: map<string, string>, k: set<string>)
  {
    (forall i :: 0 <= i < |order| ==> order[i] in values && prefix + "/" + order[i] !in k) &&
    (forall i, j :: 0 <= i < j < |order| ==> order[i] != order[j]) &&
    (forall local :: local in values && prefix + "/" + local !in k ==> local in order)
  }

  lemma SaveStepSkip(prefix: string, order: seq<string>, values: map<string, string>, k: set<string>, name: string)
    requires SaveOrderSoFar(prefix, order, values, k)
    requires forall local :: local in values ==> prefix + "/" + local != name
    ensures SaveOrderSoFar(prefix, order, values, k - {name})
  {
  }

  lemma SaveStepWrite(prefix: string, order: seq<string>, values: map<string, string>, k: set<string>,
                      name: string, local: string)
    requires name in k && name == prefix + "/" + local && local in values
    requires SaveOrderSoFar(prefix, order, values, k)
    ensures SaveOrderSoFar(prefix, order + [local], values, k - {name})
  {
    forall i | 0 <= i < |order|
      ensures order[i] != local
    {
      assert prefix + "/" + order[i] !in k;
    }
    forall other | other in values && prefix + "/" + other !in k - {name}
      ensures other in order + [local]
    {
      assert (prefix + "/" + other)[|prefix| + 1..] == other;
      assert name[|prefix| + 1..] == local;
    }
  }

  lemma SaveOrderDone(prefix: string, order: seq<string>, values: map<string, string>)
    requires SaveOrderSoFar(prefix, order, values, {})
    ensures Enumerates(order, values)
  {
  }

  /** A name that saveDatafile skips is no name of a value to save. */
  lemma SkippedName(data: map<string, Element>, h: nat, prefix: string, defaults: map<string, string>, name: string)
    requires Under(data, h, prefix)
    requires !(SavedHere(data, h, name) && name[|prefix| + 1..] in Sparse(FileValues(data, h, prefix), defaults))
    ensures forall local :: local in Sparse(FileValues(data, h, prefix), defaults) ==> prefix + "/" + local != name
  {
    forall local | local in Sparse(FileValues(data, h, prefix), defaults)
      ensures prefix + "/" + local != name
    {
      FileValuesNames(data, h, prefix, local);
      assert (prefix + "/" + local)[|prefix| + 1..] == local;
    }
  }

  lemma SavedValuesNamed(data: map<string, Element>, h: nat, prefix: string, defaults: map<string, string>)
    requires Under(data, h, prefix)
    ensures forall local :: local in Sparse(FileValues(data, h, prefix), defaults) ==> prefix + "/" + local in data
  {
    forall local | local in Sparse(FileValues(data, h, prefix), defaults)
      ensures prefix + "/" + local in data
    {
      FileValuesNames(data, h, prefix, local);
    }
  }

  lemma SkipStep(data: map<string, Element>, h: nat, prefix: string, defaults: map<string, string>,
                 order: seq<string>, k: set<string>, name: string)
    requires Under(data, h, prefix)
    requires SaveOrderSoFar(prefix, order, Sparse(FileValues(data, h, prefix), defaults), k)
    requires !(SavedHere(data, h, name) && name[|prefix| + 1..] in Sparse(FileValues(data, h, prefix), defaults))
    ensures SaveOrderSoFar(prefix, order, Sparse(FileValues(data, h, prefix), defaults), k - {name})
  {
    SkippedName(data, h, prefix, defaults, name);
    SaveStepSkip(prefix, order, Sparse(FileValues(data, h, prefix), defaults), k, name);
  }

  lemma WriteStep(data: map<string, Element>, h: nat, prefix: string, defaults: map<string, string>,
                  order: seq<string>, k: set<string>, name: string)
    requires Under(data, h, prefix) && name in k
    requires SaveOrderSoFar(prefix, order, Sparse(FileValues(data, h, prefix), defaults), k)
    requires SavedHere(data, h, name)
    requires var local := name[|prefix| + 1..];
             !(local in defaults && SavedText(data[name].value.value) == defaults[local])
    ensures var values := Sparse(FileValues(data, h, prefix), defaults);
            var local := name[|prefix| + 1..];
            local in values &&
            SaveOrderSoFar(prefix, order + [local], values, k - {name}) &&
            LinesOf(order + [local], values) == LinesOf(order, values) + [SavedLine(local, SavedText(data[name].value.value))]
  {
    var values := Sparse(FileValues(data, h, prefix), defaults);
    var local := name[|prefix| + 1..];
    WrittenName(data, h, prefix, name);
    SaveStepWrite(prefix, order, values, k, name, local);
    assert (order + [local])[..|order|] == order;
  }

  /** A name that saveDatafile writes is the prefixed name of its value. */
  lemma WrittenName(data: map<string, Element>, h: nat, prefix: string, name: string)
    requires Under(data, h, prefix) && SavedHere(data, h, name)
    ensures name == prefix + "/" + name[|prefix| + 1..]
  {
    assert name == name[..|prefix| + 1] + name[|prefix| + 1..];
  }

  /** The file half of the repository's invariant: every element's datafile is open and
    * the element is named under its prefix, and the defaults of every inheriting datafile
    * have been read. */
  ghost predicate FilesConsistent(data: map<string, Element>, files: seq<DataFile>,
                                  cache: map<string, map<string, string>>)
  {
    (forall name :: name in data && data[name].datafile.Some? ==> data[name].datafile.value < |files|) &&
    (forall h :: 0 <= h < |files| ==> Under(data, h, files[h].prefix)) &&
    (forall h :: 0 <= h < |files| && files[h].inheritsFrom.Some? ==> files[h].inheritsFrom.value in cache)
  }

  /** No dirty count is past MAX_DIRTY. */
  predicate DirtyBounded(files: seq<DataFile>)
  {
    forall h :: 0 <= h < |files| ==> files[h].dirtyCount <= MAX_DIRTY
  }

  /** Changing a dirty count keeps the files consistent. */
  lemma RecountKeepsConsistent(data: map<string, Element>, files: seq<DataFile>,
                               cache: map<string, map<string, string>>, h: nat, count: nat)
    requires FilesConsistent(data, files, cache) && h < |files|
    ensures FilesConsistent(data, files[h := files[h].(dirtyCount := count)], cache)
  {
  }

  /** The defaults a datafile inherits: the values of its include file, or none. */
  function IncludedDefaults(inheritsFrom: Option<string>, cache: map<string, map<string, string>>): map<string, string>
    requires inheritsFrom.Some? ==> inheritsFrom.value in cache
  {
    if inheritsFrom.Some? then cache[inheritsFrom.value] else map[]
  }

  /** The values saveDatafile writes for datafile `h`: those differing from the inherited
    * defaults. */
  ghost function SaveValuesOf(data: map<string, Element>, h: nat, prefix: string, inheritsFrom: Option<string>,
                              cache: map<string, map<string, string>>): map<string, string>
    requires Under(data, h, prefix) && (inheritsFrom.Some? ==> inheritsFrom.value in cache)
  {
    Sparse(FileValues(data, h, prefix), IncludedDefaults(inheritsFrom, cache))
  }

  /** The body saveDatafile writes for datafile `h`: one `name=value` line for every
    * element of the file whose value differs from its inherited default, taking the names
    * of the table in an arbitrary order. */
  method SavedBody(data: map<string, Element>, h: nat, prefix: string, inheritsFrom: Option<string>,
                   cache: map<string, map<string, string>>)
    returns (body: seq<string>, ghost order: seq<string>)
    requires Under(data, h, prefix) && (inheritsFrom.Some? ==> inheritsFrom.value in cache)
    ensures Enumerates(order, SaveValuesOf(data, h, prefix, inheritsFrom, cache))
    ensures body == LinesOf(order, SaveValuesOf(data, h, prefix, inheritsFrom, cache))
  {
    var defaultValues: map<string, string>;
    if inheritsFrom.Some? {
      defaultValues := cache[inheritsFrom.value];
    } else {
      defaultValues := map[];
    }
    ghost var values := Sparse(FileValues(data, h, prefix), defaultValues);
    SavedValuesNamed(data, h, prefix, defaultValues);
    body := [];
    order := [];
    var k := data.Keys;
    while k != {}
      invariant k <= data.Keys
      invariant SaveOrderSoFar(prefix, order, values, k)
      invariant body == LinesOf(order, values)
      decreases k
    {
      var name :| name in k;
      var element := data[name];
      if element.datafile == Some(h) && element.value.Some? {
        var value := element.value.value;
        var local := name[|prefix| + 1..];
        var valStr := value.text;
        if !value.editable {
          valStr := "=" + valStr;
        }
        if local in defaultValues && valStr == defaultValues[local] {
          SkipStep(data, h, prefix, defaultValues, order, k, name);
          k := k - {name};
          continue;
        }
        WriteStep(data, h, prefix, defaultValues, order, k, name);
        body := body + [SavedLine(local, valStr)];
        order := order + [local];
      } else {
        SkipStep(data, h, prefix, defaultValues, order, k, name);
      }
      k := k - {name};
    }
    SaveOrderDone(prefix, order, values);
  }

  /** `lines` is `header` then one line per value, in some order. */
  ghost predicate IsSave(lines: seq<string>, header: seq<string>, values: map<string, string>)
  {
    exists order :: Enumerates(order, values) && lines == header + LinesOf(order, values)
  }

  lemma IsSaveBy(lines: seq<string>, header: seq<string>, values: map<string, string>, order: seq<string>)
    requires Enumerates(order, values) && lines == header + LinesOf(order, values)
    ensures IsSave(lines, header, values)
  {
  }

  /** Every prefix's ID leads back to the prefix. */
  ghost predicate IdsRoundTrip(pathIDs: map<string, string>, idPaths: map<string, string>)
  {
    forall p :: p in pathIDs ==> pathIDs[p] in idPaths && idPaths[pathIDs[p]] == p
  }

  /** No listener is registered twice on one element. */
  ghost predicate ListenersDistinct(data: map<string, Element>)
  {
    forall name :: name in data && data[name].listeners.Subscribed? ==> Unrepeated(data[name].listeners.ids)
  }

  /** Storing an element under a name keeps the table consistent with the files when the
    * element's datafile is open and its prefix covers the name. */
  lemma PutKeepsConsistent(data: map<string, Element>, files: seq<DataFile>,
                           cache: map<string, map<string, string>>, name: string, e: Element)
    requires FilesConsistent(data, files, cache) && ListenersDistinct(data)
    requires e.datafile.Some? ==> e.datafile.value < |files| && StartsWith(name, files[e.datafile.value].prefix + "/")
    requires e.listeners.Subscribed? ==> Unrepeated(e.listeners.ids)
    ensures FilesConsistent(data[name := e], files, cache) && ListenersDistinct(data[name := e])
  {
    forall h | 0 <= h < |files|
      ensures Under(data[name := e], h, files[h].prefix)
    {
      assert Under(data, h, files[h].prefix);
    }
  }

  /** Throwing an element away, or keeping it realized, keeps the table consistent. */
  lemma MaybeDeletedKeepsConsistent(data: map<string, Element>, files: seq<DataFile>,
                                    cache: map<string, map<string, string>>, name: string)
    requires FilesConsistent(data, files, cache) && ListenersDistinct(data) && name in data
    ensures FilesConsistent(MaybeDeleted(data, name), files, cache) && ListenersDistinct(MaybeDeleted(data, name))
  {
    var r := MaybeDeleted(data, name);
    forall h | 0 <= h < |files|
      ensures Under(r, h, files[h].prefix)
    {
      assert Under(data, h, files[h].prefix);
    }
  }

  /** Marking a datafile modified keeps every dirty count within MAX_DIRTY. */
  lemma DirtyMarkedBounded(before: seq<DataFile>, after: seq<DataFile>, f: Option<nat>)
    requires DirtyBounded(before) && DirtyMarked(before, after, f)
    ensures DirtyBounded(after)
  {
    if f.Some? {
      DirtiedBounded(before[f.value].dirtyCount);
    }
  }

  /** What marking `f` modified in a repository holding `data` and `files` does to the
    * saved lines: nothing, unless the mark takes the file's count past MAX_DIRTY; then the
    * file is saved. */
  ghost predicate MarkSaved(data: map<string, Element>, files: seq<DataFile>, cache: map<string, map<string, string>>,
                            saved0: map<nat, seq<string>>, saved1: map<nat, seq<string>>, f: Option<nat>)
  {
    if f.Some? && f.value < |files| && files[f.value].dirtyCount + 1 > MAX_DIRTY then
      var h := f.value;
      h in saved1 && saved1 == saved0[h := saved1[h]] && SavedAs(saved1[h], data, h, files[h], cache)
    else
      saved1 == saved0
  }

  /** A new element as add creates it: holding `value`, saved to `f`, and never listened
    * to. */
  function NewElement(value: Option<Value>, f: Option<nat>): (r: Element)
    ensures CurrentValue(r) == RealizedValue(value) && r.datafile == f && r.listeners == NeverSubscribed
  {
    SetValue(Element(None, false, f, NeverSubscribed), value)
  }

  /** `f` is the datafile guessDataFile picks for `name`: none for a name holding `//`,
    * else the best host, or none when no datafile can host the name. */
  ghost predicate GuessedFile(files: seq<DataFile>, name: string, f: Option<nat>)
  {
    if Contains(name, "//") then f.None?
    else if f.Some? then BestHostFrom(files, name, 0, f.value)
    else forall j :: 0 <= j < |files| ==> !Hosts(files[j], name)
  }

  /** guessDataFile: the writable datafile whose prefix is the longest one the name lies
    * under, looking from the most recently opened file back and keeping the first of two
    * equally long prefixes; none for a name holding `//`. */
  method GuessDataFile(datafiles: seq<DataFile>, name: string) returns (result: Option<nat>)
    ensures Contains(name, "//") ==> result.None?
    ensures !Contains(name, "//") && result.Some? ==> BestHostFrom(datafiles, name, 0, result.value)
    ensures !Contains(name, "//") && result.None? ==> forall j :: 0 <= j < |datafiles| ==> !Hosts(datafiles[j], name)
  {
    result := None;
    if !Contains(name, "//") {
      var i := |datafiles|;
      while i != 0
        invariant 0 <= i <= |datafiles|
        invariant result.None? ==> forall j :: i <= j < |datafiles| ==> !Hosts(datafiles[j], name)
        invariant result.Some? ==> BestHostFrom(datafiles, name, i, result.value)
      {
        i := i - 1;
        var datafile := datafiles[i];
        if !datafile.canWrite {
          continue;
        }
        if StartsWith(name, datafile.prefix + "/") &&
           (result.None? || |datafile.prefix| > |datafiles[result.value].prefix|) {
          result := Some(i);
        }
      }
    }
  }

  /** The element removeValue leaves before deciding whether to throw it away: no
    * datafile and no value. */
  function Cleared(e: Element): (r: Element)
    ensures r.value.None? && !r.deferred && r.datafile.None? && r.listeners == e.listeners
  {
    SetValue(Realized(e).(datafile := None), None)
  }

  /** The old value a DATA_REMOVED event carries: none for an element without a value or
    * with a value still deferred, else the value. */
  function RemovedValue(e: Element): Option<Value>
  {
    if e.value.None? || e.value.value.form.Deferred? then None else CurrentValue(e)
  }

  /** The event removeValue dispatches: none for an anonymous name. */
  function RemovalEvents(name: string, e: Element): seq<DataEvent>
  {
    if StartsWith(name, ANONYMOUS_PREFIX) then [] else [Removed(name, RemovedValue(e))]
  }

  /** What getValue reads for `name`: nothing for a missing element. */
  function ValueAt(data: map<string, Element>, name: string): Option<Value>
  {
    if name in data then CurrentValue(data[name]) else None
  }

  /** `after` differs from `before` at most by elements having been realized: the same names,
    * and for each the same value as getValue sees it, the same datafile and listeners. */
  ghost predicate SameValues(before: map<string, Element>, after: map<string, Element>)
  {
    before.Keys == after.Keys &&
    forall n :: n in after ==> CurrentValue(after[n]) == CurrentValue(before[n]) &&
                               after[n].datafile == before[n].datafile && after[n].listeners == before[n].listeners
  }

  /** The table after getValue(name): the element, if any, realized. */
  function Looked(data: map<string, Element>, name: string): (r: map<string, Element>)
    ensures SameValues(data, r)
  {
    if name in data then
      RealizeIsIdempotent(data[name]);
      data[name := Realized(data[name])]
    else data
  }

  /** The prefix getInheritableValue tries after `prefix`: the part before its last `/`, or
    * the empty prefix when it has none. */
  function ParentPrefix(prefix: string): (r: string)
    requires |prefix| > 0
    ensures |r| < |prefix| && StartsWith(prefix, r)
  {
    match LastIndexOf(prefix, '/')
    case None => ""
    case Some(pos) => prefix[..pos]
  }

  /** The prefixes getInheritableValue looks under, nearest first; each is a prefix of the one
    * before, and the last is the empty prefix. */
  function Ancestors(prefix: string): (r: seq<string>)
    ensures |r| >= 1 && r[0] == prefix && r[|r| - 1] == ""
    ensures forall i :: 0 < i < |r| ==> |r[i]| < |r[i - 1]| && StartsWith(r[i - 1], r[i])
    decreases |prefix|
  {
    if |prefix| == 0 then [prefix] else [prefix] + Ancestors(ParentPrefix(prefix))
  }

  /** The value of `name` under the first prefix of `ps` where it has one. */
  function FirstValue(data: map<string, Element>, ps: seq<string>, name: string): Option<Value>
  {
    if ps == [] then None
    else if ValueAt(data, ps[0] + "/" + name).Some? then ValueAt(data, ps[0] + "/" + name)
    else FirstValue(data, ps[1..], name)
  }

  /** What getInheritableValue(prefix, name) returns. */
  function InheritedValue(data: map<string, Element>, prefix: string, name: string): Option<Value>
  {
    FirstValue(data, Ancestors(prefix), name)
  }

  /** The value found is that under the first prefix where the name has a value, and there is
    * none exactly when the name has a value under no prefix. */
  lemma {:induction false} FirstValueSpec(data: map<string, Element>, ps: seq<string>, name: string)
    ensures FirstValue(data, ps, name).None? <==> forall i :: 0 <= i < |ps| ==> ValueAt(data, ps[i] + "/" + name).None?
    ensures FirstValue(data, ps, name).Some? ==>
              exists i :: 0 <= i < |ps| && FirstValue(data, ps, name) == ValueAt(data, ps[i] + "/" + name) &&
                          forall j :: 0 <= j < i ==> ValueAt(data, ps[j] + "/" + name).None?
  {
    if ps != [] {
      FirstValueSpec(data, ps[1..], name);
      if ValueAt(data, ps[0] + "/" + name).None? && FirstValue(data, ps, name).Some? {
        var i :| 0 <= i < |ps[1..]| && FirstValue(data, ps[1..], name) == ValueAt(data, ps[1..][i] + "/" + name) &&
                 forall j :: 0 <= j < i ==> ValueAt(data, ps[1..][j] + "/" + name).None?;
        assert FirstValue(data, ps, name) == ValueAt(data, ps[i + 1] + "/" + name);
      }
    }
  }

  /** The walk from a prefix goes on at its parent: the value found past `child` is the
    * parent's own value or, failing that, the one found past the parent. */
  lemma AncestorStep(data: map<string, Element>, child: string, name: string)
    requires |child| > 0
    ensures var p := ParentPrefix(child);
            FirstValue(data, Ancestors(child)[1..], name) ==
            if ValueAt(data, p + "/" + name).Some? then ValueAt(data, p + "/" + name)
            else FirstValue(data, Ancestors(p)[1..], name)
  {
    assert Ancestors(child)[1..] == Ancestors(ParentPrefix(child));
  }

  /** The walk ends at the empty prefix. */
  lemma AncestorsOfRoot()
    ensures Ancestors("") == [""]
  {
  }

  /** Realizing elements changes no value read. */
  lemma ValueAtOfSame(before: map<string, Element>, after: map<string, Element>, name: string)
    requires SameValues(before, after)
    ensures ValueAt(after, name) == ValueAt(before, name)
  {
  }

  /** Realizing elements changes no value found. */
  lemma {:induction false} FirstValueOfSame(before: map<string, Element>, after: map<string, Element>,
                                            ps: seq<string>, name: string)
    requires SameValues(before, after)
    ensures FirstValue(after, ps, name) == FirstValue(before, ps, name)
  {
    if ps != [] {
      FirstValueOfSame(before, after, ps[1..], name);
    }
  }

  /** Realizing elements keeps the table consistent. */
  lemma SameValuesKeepConsistent(before: map<string, Element>, after: map<string, Element>,
                                 files: seq<DataFile>, cache: map<string, map<string, string>>)
    requires SameValues(before, after) && FilesConsistent(before, files, cache) && ListenersDistinct(before)
    ensures FilesConsistent(after, files, cache) && ListenersDistinct(after)
  {
    forall h | 0 <= h < |files|
      ensures Under(after, h, files[h].prefix)
    {
      assert Under(before, h, files[h].prefix);
    }
  }

  /** `lines` is what saveDatafile writes for datafile `h`, described by `f`: its header,
    * then one line per value of the file that differs from its default, in some order. */
  ghost predicate SavedAs(lines: seq<string>, data: map<string, Element>, h: nat, f: DataFile,
                          cache: map<string, map<string, string>>)
  {
    Under(data, h, f.prefix) && (f.inheritsFrom.Some? ==> f.inheritsFrom.value in cache) &&
    forall values :: values == SaveValuesOf(data, h, f.prefix, f.inheritsFrom, cache) ==>
      IsSave(lines, HeaderLines(f.inheritsFrom, f.prefix), values)
  }

  /** The lines saveDatafile writes for datafile `h`: the header and the saved body. */
  method SaveLines(data: map<string, Element>, h: nat, f: DataFile, cache: map<string, map<string, string>>)
    returns (lines: seq<string>)
    requires Under(data, h, f.prefix) && (f.inheritsFrom.Some? ==> f.inheritsFrom.value in cache)
    ensures SavedAs(lines, data, h, f, cache)
  {
    var header := HeaderLines(f.inheritsFrom, f.prefix);
    var body, order := SavedBody(data, h, f.prefix, f.inheritsFrom, cache);
    lines := header + body;
    IsSaveBy(lines, header, SaveValuesOf(data, h, f.prefix, f.inheritsFrom, cache), order);
  }

  /** After putValue on an existing element, getValue gives back the value stored (realized
    * if deferred) unless the element had lost all its listeners and has no datafile, in
    * which case maybeDelete throws it away; no other name's value changes. */
  lemma PutReadsBack(data: map<string, Element>, name: string, v: Option<Value>)
    requires name in data
    ensures var after := MaybeDeleted(data[name := Replaced(data[name], v)], name);
            (!(data[name].listeners == Subscribed([]) && data[name].datafile.None?) ==> ValueAt(after, name) == RealizedValue(v)) &&
            (forall n :: n != name ==> ValueAt(after, n) == ValueAt(data, n))
  {
    ReplacedReadsBack(data[name], v);
  }

  /** A save writes the line of every value it saves. */
  lemma SaveHoldsLine(lines: seq<string>, header: seq<string>, values: map<string, string>, k: string)
    requires IsSave(lines, header, values) && k in values
    ensures SavedLine(k, values[k]) in lines
  {
    var order :| Enumerates(order, values) && lines == header + LinesOf(order, values);
    var i :| 0 <= i < |order| && order[i] == k;
    assert lines[|header| + i] == SavedLine(k, values[k]);
  }

  /** removeValue as written marks the datafile modified while the element still holds its
    * value. When that mark is the one that takes the count past MAX_DIRTY, the save it
    * triggers writes the removed value (if it differs from its default) and leaves the count
    * at 0, so saveAllDatafiles, which only saves files with a positive count, never writes
    * the file without it. */
  lemma RemovalSavedAsWritten(data: map<string, Element>, files: seq<DataFile>, cache: map<string, map<string, string>>,
                              name: string, lines: seq<string>)
    requires FilesConsistent(data, files, cache) && name in data
    requires data[name].datafile.Some? && data[name].value.Some?
    requires var f := files[data[name].datafile.value];
             f.dirtyCount == MAX_DIRTY &&
             var local := name[|f.prefix| + 1..];
             !(local in IncludedDefaults(f.inheritsFrom, cache) &&
               IncludedDefaults(f.inheritsFrom, cache)[local] == SavedText(data[name].value.value))
    requires SavedAs(lines, data, data[name].datafile.value, files[data[name].datafile.value], cache)
    ensures var f := files[data[name].datafile.value];
            Dirtied(f.dirtyCount) == 0 &&
            SavedLine(name[|f.prefix| + 1..], SavedText(data[name].value.value)) in lines
  {
    var h := data[name].datafile.value;
    var f := files[h];
    var values := SaveValuesOf(data, h, f.prefix, f.inheritsFrom, cache);
    assert Under(data, h, f.prefix);
    assert SavedHere(data, h, name);
    SaveHoldsLine(lines, HeaderLines(f.inheritsFrom, f.prefix), values, name[|f.prefix| + 1..]);
  }

  /** With the element cleared before its datafile is marked modified, no save made from then
    * on writes the removed name. */
  lemma RemovalNotSaved(data: map<string, Element>, files: seq<DataFile>, cache: map<string, map<string, string>>,
                        name: string)
    requires FilesConsistent(data, files, cache) && name in data && data[name].datafile.Some?
    ensures var h := data[name].datafile.value;
            var f := files[h];
            var cleared := data[name := Cleared(data[name])];
            Under(cleared, h, f.prefix) &&
            name[|f.prefix| + 1..] !in SaveValuesOf(cleared, h, f.prefix, f.inheritsFrom, cache)
  {
    var h := data[name].datafile.value;
    var f := files[h];
    var cleared := data[name := Cleared(data[name])];
    assert Under(data, h, f.prefix);
    var local := name[|f.prefix| + 1..];
    assert f.prefix + "/" + local == name by {
      assert name == name[..|f.prefix| + 1] + local;
    }
    if local in FileValues(cleared, h, f.prefix) {
      FileValuesNames(cleared, h, f.prefix, local);
    }
  }

  /** lookupDefaultValue: the value `dataName` inherits from the include file of its
    * datafile; none when there is no such element, it has no datafile, its datafile
    * inherits from nothing, or the include file does not name it. */
  function LookupDefaultValue(data: map<string, Element>, files: seq<DataFile>,
                              cache: map<string, map<string, string>>, dataName: string): (r: Option<string>)
    requires FilesConsistent(data, files, cache)
    ensures r.Some? ==> dataName in data && data[dataName].datafile.Some? &&
                        files[data[dataName].datafile.value].inheritsFrom.Some?
  {
    if dataName !in data || data[dataName].datafile.None? then None
    else
      var f := files[data[dataName].datafile.value];
      if f.inheritsFrom.None? || f.inheritsFrom.value !in cache then None
      else
        assert Under(data, data[dataName].datafile.value, f.prefix);
        var defaults := cache[f.inheritsFrom.value];
        var nameWithinDataFile := dataName[|f.prefix| + 1..];
        if nameWithinDataFile in defaults then Some(defaults[nameWithinDataFile]) else None
  }

  /** An element with a value is written when its datafile is saved exactly when its value
    * differs from the default lookupDefaultValue finds for it. */
  lemma DefaultDecidesSave(data: map<string, Element>, files: seq<DataFile>,
                           cache: map<string, map<string, string>>, name: string)
    requires FilesConsistent(data, files, cache)
    requires name in data && data[name].datafile.Some? && data[name].value.Some?
    ensures var h := data[name].datafile.value;
            var f := files[h];
            Under(data, h, f.prefix) &&
            (name[|f.prefix| + 1..] in SaveValuesOf(data, h, f.prefix, f.inheritsFrom, cache) <==>
             LookupDefaultValue(data, files, cache, name) != Some(SavedText(data[name].value.value)))
  {
    var h := data[name].datafile.value;
    var f := files[h];
    assert Under(data, h, f.prefix);
    assert SavedHere(data, h, name);
  }

  /** The int a Java computation leaves: `x` wrapped into 32-bit two's complement. */
  function Wrap32(x: int): (r: int)
    ensures -0x8000_0000 <= r < 0x8000_0000
    ensures (x - r) % 0x1_0000_0000 == 0
  {
    var m := x % 0x1_0000_0000;
    if m >= 0x8000_0000 then m - 0x1_0000_0000 else m
  }

  /** h = 31 * h + u over the code units, in int arithmetic. */
  function UnitsHash(u: seq<int>): (r: int)
    ensures -0x8000_0000 <= r < 0x8000_0000
  {
    if |u| == 0 then 0 else Wrap32(31 * UnitsHash(u[..|u| - 1]) + u[|u| - 1])
  }

  /** Java's String.hashCode, over the string's UTF-16 code units. */
  function StringHash(s: string): (r: int)
    ensures -0x8000_0000 <= r < 0x8000_0000
  {
    UnitsHash(Utf16(s))
  }

  /** Wrapping leaves a value that is already an int alone. */
  lemma WrapOfInt(x: int)
    requires -0x8000_0000 <= x < 0x8000_0000
    ensures Wrap32(x) == x
  {
  }

  /** The hashCode getID starts from when no datafile has the prefix. */
  lemma HashOfNull()
    ensures StringHash("null") == 3392903
  {
    var u := Utf16("null");
    assert u == [110, 117, 108, 108];
    assert u[..3] == [110, 117, 108] && u[..3][..2] == [110, 117] && u[..3][..2][..1] == [110] && u[..3][..2][..1][..0] == [];
    WrapOfInt(110);
    assert UnitsHash([110]) == 110;
    WrapOfInt(3527);
    assert UnitsHash([110, 117]) == 3527;
    WrapOfInt(109445);
    assert UnitsHash([110, 117, 108]) == 109445;
    WrapOfInt(3392903);
  }

  /** A character above U+FFFF is hashed as its two surrogates, as Java hashes it. */
  lemma HashOfSurrogatePair()
    ensures StringHash("\U{10000}") == 31 * 0xD800 + 0xDC00
  {
    var u := Utf16("\U{10000}");
    assert u == [0xD800, 0xDC00];
    assert u[..1] == [0xD800] && u[..1][..0] == [];
    WrapOfInt(0xD800);
    assert UnitsHash([0xD800]) == 0xD800;
    WrapOfInt(31 * 0xD800 + 0xDC00);
  }

  /** `i` is the last datafile opened for `prefix`. */
  predicate LastWithPrefix(files: seq<DataFile>, prefix: string, i: int)
  {
    0 <= i < |files| && files[i].prefix == prefix && forall j :: i < j < |files| ==> files[j].prefix != prefix
  }

  /** No open datafile has `prefix`. */
  predicate NoFileFor(files: seq<DataFile>, prefix: string)
  {
    forall i :: 0 <= i < |files| ==> files[i].prefix != prefix
  }

  /** The path of the datafile getID names a prefix after: the last opened datafile with
    * that prefix, or "null" when there is none. */
  function DatafileName(files: seq<DataFile>, prefix: string): (r: string)
    ensures NoFileFor(files, prefix) ==> r == "null"
    ensures forall i :: LastWithPrefix(files, prefix, i) ==> r == files[i].path
  {
    if |files| == 0 then "null"
    else if files[|files| - 1].prefix == prefix then files[|files| - 1].path
    else
      var init := files[..|files| - 1];
      assert forall i :: LastWithPrefix(files, prefix, i) ==> LastWithPrefix(init, prefix, i);
      assert NoFileFor(files, prefix) ==> NoFileFor(init, prefix);
      DatafileName(init, prefix)
  }

  /** A walk that meets a datafile with the prefix stops there with its path. */
  lemma DatafileNameAt(files: seq<DataFile>, prefix: string, index: nat)
    requires index < |files| && files[index].prefix == prefix
    ensures DatafileName(files[..index + 1], prefix) == files[index].path
  {
    assert files[..index + 1][index] == files[index];
  }

  /** A walk passes over a datafile with another prefix. */
  lemma DatafileNamePasses(files: seq<DataFile>, prefix: string, index: nat)
    requires index < |files| && files[index].prefix != prefix
    ensures DatafileName(files[..index + 1], prefix) == DatafileName(files[..index], prefix)
  {
    assert files[..index + 1][index] == files[index];
    assert files[..index + 1][..index] == files[..index];
  }

  /** getID's search for the datafile of a prefix, walking the datafiles from the last. */
  method FindDatafileName(files: seq<DataFile>, prefix: string) returns (datafileName: string)
    ensures datafileName == DatafileName(files, prefix)
  {
    datafileName := "null";
    var index := |files|;
    assert files[..index] == files;
    while index > 0
      invariant 0 <= index <= |files|
      invariant DatafileName(files, prefix) == DatafileName(files[..index], prefix)
    {
      index := index - 1;
      if files[index].prefix == prefix {
        datafileName := files[index].path;
        DatafileNameAt(files, prefix, index);
        return;
      }
      DatafileNamePasses(files, prefix, index);
    }
    assert files[..index] == [];
  }

  /** `n` is the first number from `start` on whose decimal form is not yet an ID. */
  ghost predicate FirstFreeID(ids: map<string, string>, start: int, n: int)
  {
    start <= n && IntToString(n) !in ids && forall m :: start <= m < n ==> IntToString(m) in ids
  }

  /** The decimal forms of the numbers in [start, n). */
  ghost function Tried(start: int, n: int): (r: set<string>)
    requires start <= n
    ensures forall m :: start <= m < n ==> IntToString(m) in r
    decreases n - start
  {
    if n == start then {} else Tried(start, n - 1) + {IntToString(n - 1)}
  }

  /** A number's decimal form is not among those of the numbers below it. */
  lemma {:induction false} NotYetTried(start: int, n: int, k: int)
    requires start <= n <= k
    ensures IntToString(k) !in Tried(start, n)
    decreases n - start
  {
    if n > start {
      NotYetTried(start, n - 1, k);
      if IntToString(n - 1) == IntToString(k) {
        IntToStringInjective(n - 1, k);
      }
    }
  }

  /** The base makeUniqueName uses when it is given none. */
  const INTERNAL_NAME_BASE := "///Internal_Name"

  /** `base + id` is the first of base0, base1, ... that names no element. */
  ghost predicate FirstUnusedName(data: map<string, Element>, base: string, n: nat)
  {
    base + NatToString(n) !in data && forall m :: 0 <= m < n ==> base + NatToString(m) in data
  }

  /** getID's probe: counts up from `start` until the decimal form is not an ID. */
  method FirstFreeIDFrom(ids: map<string, string>, start: int) returns (num: int)
    ensures FirstFreeID(ids, start, num)
  {
    num := start;
    while IntToString(num) in ids
      invariant start <= num
      invariant forall m :: start <= m < num ==> IntToString(m) in ids
      invariant Tried(start, num) <= ids.Keys
      decreases |ids.Keys - Tried(start, num)|
    {
      NotYetTried(start, num, num);
      assert ids.Keys - Tried(start, num + 1) == (ids.Keys - Tried(start, num)) - {IntToString(num)};
      num := num + 1;
    }
  }

  /** The names base0 ... base(n-1). */
  ghost function TriedNames(base: string, n: nat): (r: set<string>)
    ensures forall m :: 0 <= m < n ==> base + NatToString(m) in r
  {
    if n == 0 then {} else TriedNames(base, n - 1) + {base + NatToString(n - 1)}
  }

  /** A name with a count appended is not among those with smaller counts. */
  lemma {:induction false} NameNotYetTried(base: string, n: nat, k: nat)
    requires n <= k
    ensures base + NatToString(k) !in TriedNames(base, n)
  {
    if n > 0 {
      NameNotYetTried(base, n - 1, k);
      var a, b := base + NatToString(n - 1), base + NatToString(k);
      if a == b {
        assert a[|base|..] == NatToString(n - 1) && b[|base|..] == NatToString(k);
        NatToStringInjective(n - 1, k);
      }
    }
  }

  /** makeUniqueName's probe: counts up from 0 until base + count names no element. */
  method FirstUnusedNameIn(data: map<string, Element>, base: string) returns (id: nat)
    ensures FirstUnusedName(data, base, id)
  {
    id := 0;
    while base + NatToString(id) in data
      invariant forall m :: 0 <= m < id ==> base + NatToString(m) in data
      invariant TriedNames(base, id) <= data.Keys
      decreases |data.Keys - TriedNames(base, id)|
    {
      NameNotYetTried(base, id, id);
      assert data.Keys - TriedNames(base, id + 1) == (data.Keys - TriedNames(base, id)) - {base + NatToString(id)};
      id := id + 1;
    }
  }

  class DataRepository {
    /** The data elements by name. */
    var data: map<string, Element>
    /** The open datafiles, in the order they were opened. */
    var datafiles: seq<DataFile>
    /** The name/value maps of the include files read so far, by include name. */
    var includedFileCache: map<string, map<string, string>>
    /** The nesting depth of putValue calls. */
    var recursionDepth: nat
    /** The events dispatched to the repository listeners, oldest first. */
    var events: seq<DataEvent>
    /** The lines last written to each datafile. */
    var saved: map<nat, seq<string>>
    /** Prefix to ID, and ID to prefix. */
    var pathIDs: map<string, string>
    var idPaths: map<string, string>
    /** The nesting depth of inconsistency brackets (a Java int, which an unbalanced
      * finishInconsistency takes below zero), and the observers waiting for the outermost
      * bracket to close. */
    var inconsistencyDepth: int
    var consistencyListeners: set<nat>

    /** The repository's invariant but for the dirty counts: the files are consistent with
      * the table; every prefix's ID leads back to the prefix; and no listener is registered
      * twice on one element. */
    ghost predicate Consistent()
      reads this`data, this`datafiles, this`includedFileCache, this`pathIDs, this`idPaths
    {
      FilesConsistent(data, datafiles, includedFileCache) && IdsRoundTrip(pathIDs, idPaths) &&
      ListenersDistinct(data)
    }

    /** The repository's invariant: consistent, and no dirty count past MAX_DIRTY. */
    ghost predicate Valid()
      reads this`data, this`datafiles, this`includedFileCache, this`pathIDs, this`idPaths
    {
      Consistent() && DirtyBounded(datafiles)
    }

    /** Inconsistency brackets are balanced so far, and observers wait only inside one. */
    predicate BracketsBalanced()
      reads this`inconsistencyDepth, this`consistencyListeners
    {
      inconsistencyDepth >= 0 && (inconsistencyDepth == 0 ==> consistencyListeners == {})
    }

    constructor ()
      ensures Valid() && BracketsBalanced()
      ensures data == map[] && datafiles == [] && includedFileCache == map[] && recursionDepth == 0
      ensures events == [] && saved == map[] && pathIDs == map[] && idPaths == map[]
      ensures inconsistencyDepth == 0 && consistencyListeners == {}
    {
      data := map[];
      datafiles := [];
      includedFileCache := map[];
      recursionDepth := 0;
      events := [];
      saved := map[];
      pathIDs := map[];
      idPaths := map[];
      inconsistencyDepth := 0;
      consistencyListeners := {};
    }

    /** saveDatafile: writes the include line of an inheriting file, a comment naming a
      * non-empty prefix, then `name=value` for every element of the file whose value
      * differs from the inherited default, in the order the table's names come up; the
      * file's dirty count is reset. */
    method SaveDatafile(h: nat)
      requires Consistent() && h < |datafiles|
      modifies this`datafiles, this`saved
      ensures Consistent()
      ensures datafiles == old(datafiles)[h := old(datafiles)[h].(dirtyCount := 0)]
      ensures h in saved && saved == old(saved)[h := saved[h]]
      ensures SavedAs(saved[h], data, h, old(datafiles)[h], includedFileCache)
    {
      var datafile := datafiles[h];
      RecountKeepsConsistent(data, datafiles, includedFileCache, h, 0);
      datafiles := datafiles[h := datafile.(dirtyCount := 0)];
      assert Consistent();
      var lines := SaveLines(data, h, datafile, includedFileCache);
      saved := saved[h := lines];
    }

    /** datafileModified: counts one more modification of the datafile `f` (if any), and
      * saves it once the count passes MAX_DIRTY. */
    method DatafileModified(f: Option<nat>)
      requires Consistent() && (f.Some? ==> f.value < |datafiles|)
      modifies this`datafiles, this`saved
      ensures Consistent()
      ensures DirtyMarked(old(datafiles), datafiles, f)
      ensures MarkSaved(data, old(datafiles), includedFileCache, old(saved), saved, f)
    {
      if f.Some? {
        var h := f.value;
        RecountKeepsConsistent(data, datafiles, includedFileCache, h, datafiles[h].dirtyCount + 1);
        datafiles := datafiles[h := datafiles[h].(dirtyCount := datafiles[h].dirtyCount + 1)];
        if datafiles[h].dirtyCount > MAX_DIRTY {
          SaveDatafile(h);
        }
      }
    }

    /** add: stores a new element under `name` and announces it, unless told not to or
      * the name is anonymous. */
    method Add(name: string, value: Option<Value>, f: Option<nat>, notify: bool)
      requires Consistent()
      requires f.Some? ==> f.value < |datafiles| && StartsWith(name, datafiles[f.value].prefix + "/")
      modifies this`data, this`events
      ensures Consistent()
      ensures data == old(data)[name := NewElement(value, f)]
      ensures events == old(events) + Announced(name, notify)
    {
      PutKeepsConsistent(data, datafiles, includedFileCache, name, NewElement(value, f));
      data := data[name := NewElement(value, f)];
      if notify && !StartsWith(name, ANONYMOUS_PREFIX) {
        events := events + [Added(name)];
      }
    }

    /** maybeDelete: throws the element away when no one cares about it any longer. */
    method MaybeDelete(name: string)
      requires Consistent() && name in data
      modifies this`data
      ensures Consistent()
      ensures data == MaybeDeleted(old(data), name)
    {
      MaybeDeletedKeepsConsistent(data, datafiles, includedFileCache, name);
      data := MaybeDeleted(data, name);
    }

    /** loadDatafile: reads the lines of a datafile over `dest`. A first line naming an
      * include file first adds that file's values, read from the cache or else loaded from
      * the lines `sources` holds for it and then cached. `including` holds the include files
      * the enclosing loads are reading: where Java's recursion on an include cycle overflows
      * the stack, the model reports IncludeCycle. */
    method LoadDatafile(lines: seq<string>, dest: map<string, string>, sources: map<string, seq<string>>,
                        including: set<string>)
      returns (r: Result<Loaded, LoadError>)
      modifies this`includedFileCache
      ensures (r, includedFileCache) == Load(lines, dest, sources, old(includedFileCache), including)
      decreases sources.Keys - including
    {
      var values := dest;
      var rest := lines;
      var inheritedDatafile := None;
      if |lines| > 0 && StartsWith(lines[0], INCLUDE_TAG) {
        var inc := Trim(lines[0][|INCLUDE_TAG|..]);
        if StartsWith(inc, "\"") {
          return Err(InvalidDatafileFormat);
        }
        var cached;
        if inc in includedFileCache {
          cached := includedFileCache[inc];
        } else {
          if inc !in sources {
            return Err(FileNotFound(inc));
          }
          if inc in including {
            return Err(IncludeCycle);
          }
          assert sources.Keys - (including + {inc}) < sources.Keys - including;
          var sub := LoadDatafile(sources[inc], map[], sources, including + {inc});
          if sub.Err? {
            return Err(sub.error);
          }
          cached := sub.value.values;
          includedFileCache := includedFileCache[inc := cached];
        }
        values := values + cached;
        rest := lines[1..];
        inheritedDatafile := Some(inc);
      }
      var body := ReadAssignments(rest, values);
      r := Tagged(body, inheritedDatafile);
    }

    /** getValue: the element's value, realized first if it is deferred. */
    method GetValue(name: string) returns (r: Option<Value>)
      requires Consistent()
      modifies this`data
      ensures Consistent()
      ensures r == ValueAt(old(data), name)
      ensures data == Looked(old(data), name)
    {
      SameValuesKeepConsistent(data, Looked(data, name), datafiles, includedFileCache);
      if name !in data {
        return None;
      }
      var e := Realized(data[name]);
      data := data[name := e];
      r := e.value;
    }

    /** getInheritableValue: the value of `name` under `prefix`, or else under the nearest
      * enclosing prefix where it has one. */
    method GetInheritableValue(prefix: string, name: string) returns (r: Option<Value>)
      requires Consistent()
      modifies this`data
      ensures Consistent()
      ensures r == InheritedValue(old(data), prefix, name)
      ensures SameValues(old(data), data)
    {
      var p := prefix;
      r := GetValue(p + "/" + name);
      if r.None? {
        assert Ancestors(p) == [p] + Ancestors(p)[1..];
      }
      while r.None? && |p| > 0
        invariant Consistent() && SameValues(old(data), data)
        invariant InheritedValue(old(data), prefix, name) == if r.Some? then r else FirstValue(old(data), Ancestors(p)[1..], name)
        decreases |p|
      {
        ghost var child := p;
        var pos := LastIndexOf(p, '/');
        if pos.None? {
          p := "";
        } else {
          p := p[..pos.value];
        }
        assert p == ParentPrefix(child);
        AncestorStep(old(data), child, name);
        ghost var before := data;
        r := GetValue(p + "/" + name);
        ValueAtOfSame(old(data), before, p + "/" + name);
      }
      if r.None? {
        AncestorsOfRoot();
      }
    }

    /** putValue on an existing element: getValue realizes it, setValue stores the value, the
      * element's datafile is marked modified when the save string changed, and the element
      * is thrown away if no one cares about it any longer. */
    method PutExisting(name: string, value: Option<Value>)
      requires Consistent() && name in data
      modifies this`data, this`datafiles, this`saved
      ensures Consistent()
      ensures data == MaybeDeleted(old(data)[name := Replaced(old(data)[name], value)], name)
      ensures DirtyMarked(old(datafiles), datafiles, ChangeMark(old(data)[name], value))
      ensures MarkSaved(old(data)[name := Replaced(old(data)[name], value)], old(datafiles), includedFileCache,
                        old(saved), saved, ChangeMark(old(data)[name], value))
    {
      var d := data[name];
      var oldValue := CurrentValue(d);
      var e := Replaced(d, value);
      if d.datafile.Some? {
        assert Under(data, d.datafile.value, datafiles[d.datafile.value].prefix);
      }
      PutKeepsConsistent(data, datafiles, includedFileCache, name, e);
      data := data[name := e];
      if d.datafile.Some? && SaveStringChanged(oldValue, value) {
        DatafileModified(d.datafile);
      } else {
        DatafileModified(None);
      }
      MaybeDelete(name);
    }

    /** putValue on a name with no element: the element is added to the datafile
      * guessDataFile picks, announced, and that datafile marked modified. */
    method PutNew(name: string, value: Option<Value>) returns (f: Option<nat>)
      requires Consistent() && name !in data
      modifies this`data, this`datafiles, this`saved, this`events
      ensures Consistent()
      ensures GuessedFile(old(datafiles), name, f)
      ensures data == old(data)[name := NewElement(value, f)]
      ensures DirtyMarked(old(datafiles), datafiles, f)
      ensures MarkSaved(data, old(datafiles), includedFileCache, old(saved), saved, f)
      ensures events == old(events) + Announced(name, true)
    {
      f := GuessDataFile(datafiles, name);
      Add(name, value, f, true);
      DatafileModified(f);
    }

    /** putValue: stores a value under a name, unless the putValue calls are nested
      * MAX_RECURSION_DEPTH deep, in which case nothing changes. The nesting depth is the
      * same afterwards. */
    method PutValue(name: string, value: Option<Value>) returns (ghost f: Option<nat>)
      requires Consistent()
      modifies this`recursionDepth, this`data, this`datafiles, this`saved, this`events
      ensures Consistent() && recursionDepth == old(recursionDepth)
      ensures old(recursionDepth) >= MAX_RECURSION_DEPTH ==>
                data == old(data) && datafiles == old(datafiles) && saved == old(saved) && events == old(events)
      ensures old(recursionDepth) < MAX_RECURSION_DEPTH && name in old(data) ==>
                data == MaybeDeleted(old(data)[name := Replaced(old(data)[name], value)], name) &&
                DirtyMarked(old(datafiles), datafiles, ChangeMark(old(data)[name], value)) &&
                MarkSaved(old(data)[name := Replaced(old(data)[name], value)], old(datafiles), includedFileCache,
                          old(saved), saved, ChangeMark(old(data)[name], value)) &&
                events == old(events)
      ensures old(recursionDepth) < MAX_RECURSION_DEPTH && name !in old(data) ==>
                GuessedFile(old(datafiles), name, f) && data == old(data)[name := NewElement(value, f)] &&
                DirtyMarked(old(datafiles), datafiles, f) &&
                MarkSaved(data, old(datafiles), includedFileCache, old(saved), saved, f) &&
                events == old(events) + Announced(name, true)
    {
      f := None;
      if recursionDepth < MAX_RECURSION_DEPTH {
        recursionDepth := recursionDepth + 1;
        if name in data {
          PutExisting(name, value);
        } else {
          f := PutNew(name, value);
        }
        recursionDepth := recursionDepth - 1;
      }
    }

    /** removeValue, with the element cleared before its datafile is marked modified: the
      * removal is announced (except for anonymous names), the element loses its value and
      * its datafile, the datafile is marked modified, and the element is thrown away unless
      * someone still listens to it. */
    method RemoveValue(name: string)
      requires Consistent()
      modifies this`data, this`datafiles, this`saved, this`events
      ensures Consistent()
      ensures name !in old(data) ==>
                data == old(data) && datafiles == old(datafiles) && saved == old(saved) && events == old(events)
      ensures name in old(data) ==>
                events == old(events) + RemovalEvents(name, old(data)[name]) &&
                data == MaybeDeleted(old(data)[name := Cleared(old(data)[name])], name) &&
                DirtyMarked(old(datafiles), datafiles, old(data)[name].datafile) &&
                MarkSaved(old(data)[name := Cleared(old(data)[name])], old(datafiles), includedFileCache,
                          old(saved), saved, old(data)[name].datafile)
    {
      if name in data {
        var removedElement := data[name];
        events := events + RemovalEvents(name, removedElement);
        PutKeepsConsistent(data, datafiles, includedFileCache, name, Cleared(removedElement));
        data := data[name := Cleared(removedElement)];
        DatafileModified(removedElement.datafile);
        MaybeDelete(name);
      }
    }

    /** removeValue as written: the datafile is marked modified before the element is
      * cleared, so a save that mark triggers still sees the removed value. */
    method RemoveValueAsWritten(name: string)
      requires Consistent()
      modifies this`data, this`datafiles, this`saved, this`events
      ensures Consistent()
      ensures name in old(data) ==>
                events == old(events) + RemovalEvents(name, old(data)[name]) &&
                data == MaybeDeleted(old(data)[name := Cleared(old(data)[name])], name) &&
                DirtyMarked(old(datafiles), datafiles, old(data)[name].datafile) &&
                MarkSaved(old(data), old(datafiles), includedFileCache, old(saved), saved, old(data)[name].datafile)
    {
      if name in data {
        var removedElement := data[name];
        events := events + RemovalEvents(name, removedElement);
        DatafileModified(removedElement.datafile);
        PutKeepsConsistent(data, datafiles, includedFileCache, name, Cleared(removedElement));
        data := data[name := Cleared(removedElement)];
        MaybeDelete(name);
      }
    }

    /** getPath: the prefix an ID stands for, if any. */
    function GetPath(id: string): (r: Option<string>)
      reads this`idPaths
      ensures r.Some? <==> id in idPaths
      ensures r.Some? ==> idPaths[id] == r.value
    {
      if id in idPaths then Some(idPaths[id]) else None
    }

    /** getID: the ID of a prefix. A prefix that has one keeps it; otherwise the first
      * number from the hashCode of its datafile's path (or of "null") whose decimal form is
      * not yet an ID becomes its ID. Either way getPath leads back to the prefix. */
    method GetID(prefix: string) returns (id: string, ghost idNum: int)
      requires Consistent()
      modifies this`pathIDs, this`idPaths
      ensures Consistent()
      ensures prefix in pathIDs && pathIDs[prefix] == id && GetPath(id) == Some(prefix)
      ensures prefix in old(pathIDs) ==> id == old(pathIDs)[prefix] &&
                                         pathIDs == old(pathIDs) && idPaths == old(idPaths)
      ensures prefix !in old(pathIDs) ==>
                id !in old(idPaths) && id == IntToString(idNum) &&
                FirstFreeID(old(idPaths), StringHash(DatafileName(datafiles, prefix)), idNum) &&
                pathIDs == old(pathIDs)[prefix := id] && idPaths == old(idPaths)[id := prefix]
    {
      idNum := 0;
      if prefix in pathIDs {
        id := pathIDs[prefix];
        return;
      }
      var datafileName := FindDatafileName(datafiles, prefix);
      var num := FirstFreeIDFrom(idPaths, StringHash(datafileName));
      id := IntToString(num);
      idNum := num;
      pathIDs := pathIDs[prefix := id];
      idPaths := idPaths[id := prefix];
    }

    /** remapIDs: the ID of `oldPrefix`, if it has one, becomes the ID of `newPrefix`. */
    method RemapIDs(oldPrefix: string, newPrefix: string)
      requires Consistent()
      modifies this`pathIDs, this`idPaths
      ensures Consistent()
      ensures oldPrefix !in old(pathIDs) ==> pathIDs == old(pathIDs) - {oldPrefix} && idPaths == old(idPaths)
      ensures oldPrefix in old(pathIDs) ==>
                var id := old(pathIDs)[oldPrefix];
                pathIDs == (old(pathIDs) - {oldPrefix})[newPrefix := id] &&
                idPaths == old(idPaths)[id := newPrefix] && GetPath(id) == Some(newPrefix)
    {
      if oldPrefix in pathIDs {
        var id := pathIDs[oldPrefix];
        forall p | p in pathIDs && p != oldPrefix
          ensures pathIDs[p] != id
        {
          assert idPaths[pathIDs[p]] == p;
        }
        pathIDs := (pathIDs - {oldPrefix})[newPrefix := id];
        idPaths := idPaths[id := newPrefix];
      } else {
        pathIDs := pathIDs - {oldPrefix};
      }
    }

    /** makeUniqueName: the first of base0, base1, ... (base "///Internal_Name" when none is
      * given) that names no element; putValue then stores no value under it, which adds the
      * element unless putValue calls are nested too deep. */
    method MakeUniqueName(baseName: Option<string>) returns (name: string, ghost n: nat)
      requires Consistent()
      modifies this`recursionDepth, this`data, this`datafiles, this`saved, this`events
      ensures Consistent() && recursionDepth == old(recursionDepth)
      ensures name !in old(data)
      ensures var base := if baseName.Some? then baseName.value else INTERNAL_NAME_BASE;
              name == base + NatToString(n) && FirstUnusedName(old(data), base, n)
      ensures old(recursionDepth) < MAX_RECURSION_DEPTH ==> name in data && CurrentValue(data[name]).None?
    {
      var base := if baseName.Some? then baseName.value else INTERNAL_NAME_BASE;
      var id := FirstUnusedNameIn(data, base);
      name := base + NatToString(id);
      n := id;
      ghost var f := PutValue(name, None);
    }

    /** addDataConsistencyObserver: the observer is called back at once exactly when no
      * inconsistency bracket is open; otherwise it waits for the outermost one to close. */
    method AddDataConsistencyObserver(o: nat) returns (callbackImmediately: bool)
      modifies this`consistencyListeners
      ensures callbackImmediately <==> inconsistencyDepth == 0
      ensures consistencyListeners ==
              if callbackImmediately then old(consistencyListeners) else old(consistencyListeners) + {o}
      ensures old(BracketsBalanced()) ==> BracketsBalanced()
    {
      callbackImmediately := inconsistencyDepth == 0;
      if !callbackImmediately {
        consistencyListeners := consistencyListeners + {o};
      }
    }

    /** startInconsistency: opens a bracket. */
    method StartInconsistency()
      modifies this`inconsistencyDepth
      ensures inconsistencyDepth == old(inconsistencyDepth) + 1
      ensures old(BracketsBalanced()) ==> BracketsBalanced()
    {
      inconsistencyDepth := inconsistencyDepth + 1;
    }

    /** finishInconsistency: closes a bracket; closing the outermost one releases every
      * waiting observer (to be called back) and empties the queue. */
    method FinishInconsistency() returns (released: set<nat>)
      modifies this`inconsistencyDepth, this`consistencyListeners
      ensures inconsistencyDepth == old(inconsistencyDepth) - 1
      ensures inconsistencyDepth == 0 ==> released == old(consistencyListeners) && consistencyListeners == {}
      ensures inconsistencyDepth != 0 ==> released == {} && consistencyListeners == old(consistencyListeners)
      ensures old(BracketsBalanced()) && old(inconsistencyDepth) > 0 ==> BracketsBalanced()
    {
      released := {};
      inconsistencyDepth := inconsistencyDepth - 1;
      if inconsistencyDepth == 0 && consistencyListeners != {} {
        released := consistencyListeners;
        consistencyListeners := {};
      }
    }

    /** An observer added inside a bracket opened with none open is not called back at once,
      * and is released when that bracket closes. */
    method BracketReleasesObserver(o: nat) returns (callbackImmediately: bool, released: set<nat>)
      requires inconsistencyDepth == 0
      modifies this`inconsistencyDepth, this`consistencyListeners
      ensures !callbackImmediately && o in released && inconsistencyDepth == 0 && consistencyListeners == {}
    {
      StartInconsistency();
      callbackImmediately := AddDataConsistencyObserver(o);
      released := FinishInconsistency();
    }
  }
}
