/**
 * The data freezer of the repository: two sorted work queues of names to freeze and to
 * thaw, in which a request cancels a pending opposite request; the freezing and thawing
 * of one element through putValue; and, per freeze flag, the three-state FrozenDataSet
 * that turns changes of the flag and newly added members into queue requests.
 *
 * The freezer's thread, its interrupts and the repository listener registrations are not
 * part of this model: each callback is a method run to completion.
 */
module Freezer {
  import opened Wrappers
  import opened Strings
  import opened DataElements
  import opened Repository

  /** The segment of a data name that makes it a freeze flag. */
  const FREEZE_FLAG_TAG: string := "/FreezeFlag/"

  predicate IsFreezeFlagElement(dataName: string)
  {
    Contains(dataName, FREEZE_FLAG_TAG)
  }

  // ---------------------------------------------------------------------------------
  // The work queues

  /** freeze(n) on the queues (toFreeze, toThaw): a pending thaw of `n` is cancelled,
    * otherwise `n` is queued for freezing. */
  function Freezing(toFreeze: set<string>, toThaw: set<string>, n: string): (r: (set<string>, set<string>))
    ensures n in toThaw ==> r == (toFreeze, toThaw - {n})
    ensures n !in toThaw ==> r == (toFreeze + {n}, toThaw)
  {
    if n in toThaw then (toFreeze, toThaw - {n}) else (toFreeze + {n}, toThaw)
  }

  /** thaw(n) on the queues: a pending freeze of `n` is cancelled, otherwise `n` is queued
    * for thawing. */
  function Thawing(toFreeze: set<string>, toThaw: set<string>, n: string): (r: (set<string>, set<string>))
    ensures n in toFreeze ==> r == (toFreeze - {n}, toThaw)
    ensures n !in toFreeze ==> r == (toFreeze, toThaw + {n})
  {
    if n in toFreeze then (toFreeze - {n}, toThaw) else (toFreeze, toThaw + {n})
  }

  /** No name is waiting both to be frozen and to be thawed. */
  predicate Disjoint(toFreeze: set<string>, toThaw: set<string>)
  {
    toFreeze * toThaw == {}
  }

  /** Requests never leave a name in both queues, and a freeze followed by a thaw of a name
    * that was not queued (or the reverse) leaves the queues as they were. */
  lemma RequestsCancel(toFreeze: set<string>, toThaw: set<string>, n: string)
    requires Disjoint(toFreeze, toThaw)
    ensures Disjoint(Freezing(toFreeze, toThaw, n).0, Freezing(toFreeze, toThaw, n).1)
    ensures Disjoint(Thawing(toFreeze, toThaw, n).0, Thawing(toFreeze, toThaw, n).1)
    ensures n !in toFreeze && n !in toThaw ==>
              var f := Freezing(toFreeze, toThaw, n);
              var t := Thawing(toFreeze, toThaw, n);
              Thawing(f.0, f.1, n) == (toFreeze, toThaw) && Freezing(t.0, t.1, n) == (toFreeze, toThaw)
  {
    if n !in toFreeze && n !in toThaw {
      assert toFreeze + {n} - {n} == toFreeze;
      assert toThaw + {n} - {n} == toThaw;
    }
  }

  /** Freezing every name of `s`, one at a time and in any order: the names of `s` waiting
    * to be thawed are released, the others are queued for freezing. */
  function FreezingAll(toFreeze: set<string>, toThaw: set<string>, s: set<string>): (set<string>, set<string>)
  {
    (toFreeze + (s - toThaw), toThaw - s)
  }

  /** Thawing every name of `s`, symmetrically. */
  function ThawingAll(toFreeze: set<string>, toThaw: set<string>, s: set<string>): (set<string>, set<string>)
  {
    (toFreeze - s, toThaw + (s - toFreeze))
  }

  /** One more name frozen on top of the names of `done`. */
  lemma FreezingAllStep(toFreeze: set<string>, toThaw: set<string>, done: set<string>, n: string)
    requires n !in done
    ensures var q := FreezingAll(toFreeze, toThaw, done);
            Freezing(q.0, q.1, n) == FreezingAll(toFreeze, toThaw, done + {n})
  {
    var q := FreezingAll(toFreeze, toThaw, done);
    var r := FreezingAll(toFreeze, toThaw, done + {n});
    if n in toThaw {
      assert r.0 == q.0 && r.1 == q.1 - {n};
    } else {
      assert r.0 == q.0 + {n} && r.1 == q.1;
    }
  }

  /** One more name thawed on top of the names of `done`. */
  lemma ThawingAllStep(toFreeze: set<string>, toThaw: set<string>, done: set<string>, n: string)
    requires n !in done
    ensures var q := ThawingAll(toFreeze, toThaw, done);
            Thawing(q.0, q.1, n) == ThawingAll(toFreeze, toThaw, done + {n})
  {
    var q := ThawingAll(toFreeze, toThaw, done);
    var r := ThawingAll(toFreeze, toThaw, done + {n});
    if n in toFreeze {
      assert r.0 == q.0 - {n} && r.1 == q.1;
    } else {
      assert r.0 == q.0 && r.1 == q.1 + {n};
    }
  }

  /** Nothing frozen or thawed leaves the queues alone. */
  lemma NothingDone(toFreeze: set<string>, toThaw: set<string>)
    ensures FreezingAll(toFreeze, toThaw, {}) == (toFreeze, toThaw)
    ensures ThawingAll(toFreeze, toThaw, {}) == (toFreeze, toThaw)
  {
    assert toFreeze + ({} - toThaw) == toFreeze && toThaw - {} == toThaw;
    assert toFreeze - {} == toFreeze && toThaw + ({} - toFreeze) == toThaw;
  }

  /** pop: the least name of a sorted set, removed from it; nothing for an empty set. */
  method Pop(queue: set<string>) returns (item: Option<string>, rest: set<string>)
    ensures item.None? <==> queue == {}
    ensures item.None? ==> rest == queue
    ensures item.Some? ==> IsLeast(item.value, queue) && rest == queue - {item.value}
  {
    if queue == {} {
      return None, queue;
    }
    var first := Least(queue);
    item := Some(first);
    rest := queue - {first};
  }

  // ---------------------------------------------------------------------------------
  // Freezing and thawing one element

  /** A value the freezer wraps: a DoubleData, DateData or StringData. Any other value,
    * a frozen one included, is left alone. */
  predicate Freezable(v: Option<Value>)
  {
    v.Some? && v.value.form.Simple? && v.value.form.kind != OtherSimple
  }

  /** The frozen wrapper of a live value: not editable, with the save string the wrapper
    * class computes. */
  function FrozenValue(live: Value, text: string): (r: Value)
    ensures IsFrozen(Some(r)) && !Freezable(Some(r)) && r.form.live == live && !r.editable
  {
    Value(Frozen(live), text, false)
  }

  /** The prefix performFreeze hands to the frozen wrapper: that of the element's datafile,
    * or the empty prefix for an element without one. */
  function ElementPrefix(files: seq<DataFile>, e: Element): string
  {
    if e.datafile.Some? && e.datafile.value < |files| then files[e.datafile.value].prefix else ""
  }

  /** An element holding a value survives putValue's maybeDelete unless every listener it
    * ever had has left and it has no datafile. */
  predicate Survives(e: Element)
  {
    !(e.listeners == Subscribed([]) && e.datafile.None?)
  }

  /** What putValue on an existing element leaves for getValue: the value stored (realized
    * if deferred) when the element survives, nothing when it is thrown away; every other
    * name reads as before. */
  lemma PutOnExisting(data: map<string, Element>, looked: map<string, Element>, name: string, v: Option<Value>)
    requires SameValues(data, looked) && name in looked && v.Some?
    ensures var after := MaybeDeleted(looked[name := Replaced(looked[name], v)], name);
            ValueAt(after, name) == (if Survives(data[name]) then RealizedValue(v) else None) &&
            (Survives(data[name]) && !IsDeferred(v) ==>
               name in after && after[name].value == v &&
               after[name].datafile == data[name].datafile && after[name].listeners == data[name].listeners) &&
            forall n :: n != name ==> ValueAt(after, n) == ValueAt(data, n)
  {
    PutReadsBack(looked, name, v);
    var after := MaybeDeleted(looked[name := Replaced(looked[name], v)], name);
    ReplacedReadsBack(looked[name], v);
    if !Survives(data[name]) {
      assert Discardable(Replaced(looked[name], v));
    }
    forall n | n != name
      ensures ValueAt(after, n) == ValueAt(data, n)
    {
      ValueAtOfSame(data, looked, n);
    }
  }

  /** The name's element is the same in both tables, or in neither. */
  ghost predicate SameElement(before: map<string, Element>, after: map<string, Element>, n: string)
  {
    (n in after <==> n in before) && (n in before ==> after[n] == before[n])
  }

  /** The datafiles are the same ones, with the same prefixes and parents; only their dirty
    * counts may differ. */
  ghost predicate SameLayout(before: seq<DataFile>, after: seq<DataFile>)
  {
    |after| == |before| &&
    forall h :: 0 <= h < |before| ==> after[h].prefix == before[h].prefix && after[h].inheritsFrom == before[h].inheritsFrom
  }

  /** The value getValue finds for `name` once performFreeze has run on the repository
    * (data, files, cache, recursion depth). */
  function FreezeOutcome(data: map<string, Element>, files: seq<DataFile>, cache: map<string, map<string, string>>,
                         depth: nat, name: string, wrapText: (string, Value, string, Option<string>) -> string): Option<Value>
    requires FilesConsistent(data, files, cache)
  {
    var v := ValueAt(data, name);
    if !Freezable(v) || depth >= MAX_RECURSION_DEPTH then v
    else if Survives(data[name]) then
      Some(FrozenValue(v.value, wrapText(name, v.value, ElementPrefix(files, data[name]),
                                         LookupDefaultValue(data, files, cache, name))))
    else None
  }

  /** The value getValue finds for `name` once performThaw has run at recursion depth
    * `depth`. */
  function ThawOutcome(data: map<string, Element>, depth: nat, name: string): Option<Value>
  {
    if name in data && IsFrozen(data[name].value) && depth < MAX_RECURSION_DEPTH then
      (if Survives(data[name]) then RealizedValue(Some(data[name].value.value.form.live)) else None)
    else ValueAt(data, name)
  }

  /** What performFreeze does to a name depends only on that name's element and on the
    * prefixes and parents of the datafiles. */
  lemma FreezeOutcomeOfSame(d0: map<string, Element>, f0: seq<DataFile>, d1: map<string, Element>, f1: seq<DataFile>,
                            cache: map<string, map<string, string>>, depth: nat, name: string,
                            wrapText: (string, Value, string, Option<string>) -> string)
    requires FilesConsistent(d0, f0, cache) && FilesConsistent(d1, f1, cache)
    requires SameElement(d0, d1, name) && SameLayout(f0, f1)
    ensures FreezeOutcome(d1, f1, cache, depth, name, wrapText) == FreezeOutcome(d0, f0, cache, depth, name, wrapText)
  {
    if name in d0 {
      assert ElementPrefix(f1, d1[name]) == ElementPrefix(f0, d0[name]);
      assert LookupDefaultValue(d1, f1, cache, name) == LookupDefaultValue(d0, f0, cache, name);
    }
  }

  /** freezeAll part-way through the names `queued` of the table (d0, f0), with `pending`
    * still waiting: each name done reads as performFreeze left it, and every other name
    * keeps its element. */
  ghost predicate FreezeProgress(d0: map<string, Element>, f0: seq<DataFile>, cache: map<string, map<string, string>>,
                                 depth: nat, wrapText: (string, Value, string, Option<string>) -> string,
                                 queued: set<string>, pending: set<string>, d: map<string, Element>, f: seq<DataFile>)
    requires FilesConsistent(d0, f0, cache)
  {
    (forall n :: n in queued && n !in pending ==> ValueAt(d, n) == FreezeOutcome(d0, f0, cache, depth, n, wrapText)) &&
    (forall n :: n !in queued || n in pending ==> SameElement(d0, d, n)) &&
    SameLayout(f0, f)
  }

  /** One more name frozen. */
  lemma FreezeProgressStep(d0: map<string, Element>, f0: seq<DataFile>, cache: map<string, map<string, string>>,
                           depth: nat, wrapText: (string, Value, string, Option<string>) -> string,
                           queued: set<string>, pending: set<string>, d: map<string, Element>, f: seq<DataFile>,
                           m: string, d': map<string, Element>, f': seq<DataFile>)
    requires FilesConsistent(d0, f0, cache) && FilesConsistent(d, f, cache)
    requires FreezeProgress(d0, f0, cache, depth, wrapText, queued, pending, d, f) && m in pending && pending <= queued
    requires ValueAt(d', m) == FreezeOutcome(d, f, cache, depth, m, wrapText)
    requires forall n :: n != m ==> SameElement(d, d', n)
    requires SameLayout(f, f')
    ensures FreezeProgress(d0, f0, cache, depth, wrapText, queued, pending - {m}, d', f')
  {
    FreezeOutcomeOfSame(d0, f0, d, f, cache, depth, m, wrapText);
    forall n | n in queued && n !in pending - {m}
      ensures ValueAt(d', n) == FreezeOutcome(d0, f0, cache, depth, n, wrapText)
    {
      if n != m {
        assert SameElement(d, d', n);
      }
    }
    forall n | n !in queued || n in pending - {m}
      ensures SameElement(d0, d', n)
    {
      assert SameElement(d0, d, n) && SameElement(d, d', n);
    }
  }

  /** thawAll part-way through, likewise. */
  ghost predicate ThawProgress(d0: map<string, Element>, depth: nat, queued: set<string>, pending: set<string>,
                               d: map<string, Element>)
  {
    (forall n :: n in queued && n !in pending ==> ValueAt(d, n) == ThawOutcome(d0, depth, n)) &&
    (forall n :: n !in queued || n in pending ==> SameElement(d0, d, n))
  }

  /** One more name thawed. */
  lemma ThawProgressStep(d0: map<string, Element>, depth: nat, queued: set<string>, pending: set<string>,
                         d: map<string, Element>, m: string, d': map<string, Element>)
    requires ThawProgress(d0, depth, queued, pending, d) && m in pending && pending <= queued
    requires ValueAt(d', m) == ThawOutcome(d, depth, m)
    requires forall n :: n != m ==> SameElement(d, d', n)
    ensures ThawProgress(d0, depth, queued, pending - {m}, d')
  {
    assert SameElement(d0, d, m);
    forall n | n in queued && n !in pending - {m}
      ensures ValueAt(d', n) == ThawOutcome(d0, depth, n)
    {
      if n != m {
        assert SameElement(d, d', n);
      }
    }
    forall n | n !in queued || n in pending - {m}
      ensures SameElement(d0, d', n)
    {
      assert SameElement(d0, d, n) && SameElement(d, d', n);
    }
  }

  // ---------------------------------------------------------------------------------
  // The per-flag state machine

  /** The states of a FrozenDataSet: its members frozen, frozen before the freezer was
    * watching (the flag not yet seen), or thawed. */
  datatype FdsState = FDS_FROZEN | FDS_GRANDFATHERED | FDS_THAWED

  /** The state after the flag is seen with value `flag`: a thawed set is frozen by a true
    * flag, and any set is thawed by a false one. */
  function AfterFlag(state: FdsState, flag: bool): (r: FdsState)
    ensures flag && state == FDS_THAWED ==> r == FDS_FROZEN
    ensures flag && state != FDS_THAWED ==> r == state
    ensures !flag ==> r == FDS_THAWED
  {
    if flag then (if state == FDS_THAWED then FDS_FROZEN else state) else FDS_THAWED
  }

  /** The regular expression of a flag's members: the flag's name with the FreezeFlag
    * segment cut down to its leading `/`, anchored at both ends, in multi-line mode. */
  function FreezeRegexp(freezeFlagName: string, pos: nat): string
    requires OccursAt(freezeFlagName, FREEZE_FLAG_TAG, pos)
  {
    "m\n^" + freezeFlagName[..pos + 1] + freezeFlagName[pos + |FREEZE_FLAG_TAG|..] + "$\n"
  }

  /** The flag `p/FreezeFlag/q` governs exactly the name `p/q`: its expression anchors that
    * name at both ends. */
  lemma FreezeRegexpOfParts(p: string, q: string)
    ensures OccursAt(p + FREEZE_FLAG_TAG + q, FREEZE_FLAG_TAG, |p|)
    ensures FreezeRegexp(p + FREEZE_FLAG_TAG + q, |p|) == "m\n^" + p + "/" + q + "$\n"
  {
    var name := p + FREEZE_FLAG_TAG + q;
    assert name[|p|..|p| + |FREEZE_FLAG_TAG|] == FREEZE_FLAG_TAG;
    assert name[..|p| + 1] == p + "/";
    assert name[|p| + |FREEZE_FLAG_TAG|..] == q;
  }

  /** The FreezeFlag segment of `/p/FreezeFlag/lock` starts at position 2. */
  lemma FreezeFlagPosExample()
    ensures IndexOfString("/p/FreezeFlag/lock", FREEZE_FLAG_TAG) == Some(2)
  {
    var s := "/p/FreezeFlag/lock";
    assert s[2..14] == FREEZE_FLAG_TAG;
    assert FindFrom(s, FREEZE_FLAG_TAG, 2) == Some(2);
    assert s[1..13][0] != FREEZE_FLAG_TAG[0];
    assert FindFrom(s, FREEZE_FLAG_TAG, 1) == Some(2);
    assert s[0..12][1] != FREEZE_FLAG_TAG[1];
  }

  /** The flag `/p/FreezeFlag/lock` governs the name `/p/lock`. */
  lemma FreezeRegexpExample()
    ensures OccursAt("/p/FreezeFlag/lock", FREEZE_FLAG_TAG, 2)
    ensures FreezeRegexp("/p/FreezeFlag/lock", 2) == "m\n^/p/lock$\n"
  {
    var s := "/p/FreezeFlag/lock";
    assert s[2..14] == FREEZE_FLAG_TAG;
    assert s[..3] == "/p/" && s[14..] == "lock";
  }

  /** The value the last of a batch of flag events gives: dataValuesChanged walks the batch
    * from its end, so the first event naming the flag is the one that sticks. */
  function FirstFlagValue(events: seq<(string, bool)>, flagName: string): (r: Option<bool>)
    ensures r.None? <==> forall i :: 0 <= i < |events| ==> events[i].0 != flagName
    ensures r.Some? ==> exists i :: 0 <= i < |events| && events[i] == (flagName, r.value) &&
                                    forall j :: 0 <= j < i ==> events[j].0 != flagName
  {
    if events == [] then None
    else if events[0].0 == flagName then
      assert events[0] == (flagName, events[0].1);
      Some(events[0].1)
    else
      var rest := FirstFlagValue(events[1..], flagName);
      assert rest.Some? ==> exists i :: 0 <= i < |events| && events[i] == (flagName, rest.value) &&
                                        forall j :: 0 <= j < i ==> events[j].0 != flagName by {
        if rest.Some? {
          var i :| 0 <= i < |events[1..]| && events[1..][i] == (flagName, rest.value) &&
                   forall j :: 0 <= j < i ==> events[1..][j].0 != flagName;
          assert events[i + 1] == (flagName, rest.value);
        }
      }
      rest
  }

  /** A FrozenDataSet: the freeze flag it watches, the regular expression of its members
    * (none when the name holds no FreezeFlag segment), the members seen so far, its state,
    * the flag value last seen, whether the first consistency callback is still to come, and
    * the names whose freezing waits for it. */
  class FrozenDataSet {
    var freezeFlagName: string
    var freezeRegexp: Option<string>
    var dataItems: set<string>
    var currentState: FdsState
    var observedFlagValue: bool
    var initializing: bool
    var tentativeFreezables: set<string>
    /** The freezer whose queues the set's requests go to. */
    const freezer: DataFreezer

    /** A new set starts grandfathered and initializing, with no members. */
    constructor (freezer: DataFreezer, freezeFlagName: string)
      ensures this.freezer == freezer && this.freezeFlagName == freezeFlagName
      ensures currentState == FDS_GRANDFATHERED && !observedFlagValue
      ensures dataItems == {} && tentativeFreezables == {}
      ensures IndexOfString(freezeFlagName, FREEZE_FLAG_TAG).None? ==> freezeRegexp.None? && !initializing
      ensures IndexOfString(freezeFlagName, FREEZE_FLAG_TAG).Some? ==>
                initializing && freezeRegexp == Some(FreezeRegexp(freezeFlagName, IndexOfString(freezeFlagName, FREEZE_FLAG_TAG).value))
    {
      this.freezer := freezer;
      this.freezeFlagName := freezeFlagName;
      currentState := FDS_GRANDFATHERED;
      observedFlagValue := false;
      dataItems := {};
      tentativeFreezables := {};
      var pos := IndexOfString(freezeFlagName, FREEZE_FLAG_TAG);
      if pos.None? {
        freezeRegexp := None;
        initializing := false;
      } else {
        freezeRegexp := Some(FreezeRegexp(freezeFlagName, pos.value));
        initializing := true;
      }
    }

    /** dispose: the set forgets its members. */
    method Dispose()
      modifies this`dataItems
      ensures dataItems == {}
    {
      dataItems := {};
    }

    /** The set's freezeAll(items): while initializing the names wait in the tentative set,
      * afterwards each is handed to the freezer's freeze. */
    method FreezeItems(items: set<string>)
      modifies this`tentativeFreezables, freezer`itemsToFreeze, freezer`itemsToThaw
      ensures initializing ==> tentativeFreezables == old(tentativeFreezables) + items &&
                               freezer.itemsToFreeze == old(freezer.itemsToFreeze) && freezer.itemsToThaw == old(freezer.itemsToThaw)
      ensures !initializing ==> tentativeFreezables == old(tentativeFreezables) &&
                                (freezer.itemsToFreeze, freezer.itemsToThaw) ==
                                FreezingAll(old(freezer.itemsToFreeze), old(freezer.itemsToThaw), items)
    {
      if initializing {
        tentativeFreezables := tentativeFreezables + items;
        return;
      }
      var rest := items;
      ghost var done: set<string> := {};
      NothingDone(freezer.itemsToFreeze, freezer.itemsToThaw);
      while rest != {}
        invariant rest + done == items && rest * done == {}
        invariant tentativeFreezables == old(tentativeFreezables)
        invariant (freezer.itemsToFreeze, freezer.itemsToThaw) ==
                  FreezingAll(old(freezer.itemsToFreeze), old(freezer.itemsToThaw), done)
        decreases |rest|
      {
        var itemName :| itemName in rest;
        FreezingAllStep(old(freezer.itemsToFreeze), old(freezer.itemsToThaw), done, itemName);
        freezer.Freeze(itemName);
        done := done + {itemName};
        rest := rest - {itemName};
      }
    }

    /** The set's thawAll(items): each name is handed to the freezer's thaw. */
    method ThawItems(items: set<string>)
      modifies freezer`itemsToFreeze, freezer`itemsToThaw
      ensures (freezer.itemsToFreeze, freezer.itemsToThaw) ==
              ThawingAll(old(freezer.itemsToFreeze), old(freezer.itemsToThaw), items)
    {
      var rest := items;
      ghost var done: set<string> := {};
      NothingDone(freezer.itemsToFreeze, freezer.itemsToThaw);
      while rest != {}
        invariant rest + done == items && rest * done == {}
        invariant (freezer.itemsToFreeze, freezer.itemsToThaw) ==
                  ThawingAll(old(freezer.itemsToFreeze), old(freezer.itemsToThaw), done)
        decreases |rest|
      {
        var itemName :| itemName in rest;
        ThawingAllStep(old(freezer.itemsToFreeze), old(freezer.itemsToThaw), done, itemName);
        freezer.Thaw(itemName);
        done := done + {itemName};
        rest := rest - {itemName};
      }
    }

    /** dataValueChanged: a change of the flag records its truth value (the consistency
      * callback that acts on it comes later); a change of any other name is ignored. */
    method DataValueChanged(name: string, flagValue: bool)
      modifies this`observedFlagValue
      ensures observedFlagValue == if name == freezeFlagName then flagValue else old(observedFlagValue)
    {
      if name == freezeFlagName {
        observedFlagValue := flagValue;
      }
    }

    /** dataValuesChanged: the events of a batch are taken from the last to the first. */
    method DataValuesChanged(events: seq<(string, bool)>)
      modifies this`observedFlagValue
      ensures var first := FirstFlagValue(events, freezeFlagName);
              observedFlagValue == if first.Some? then first.value else old(observedFlagValue)
    {
      var i := |events|;
      while i > 0
        invariant 0 <= i <= |events|
        invariant var later := FirstFlagValue(events[i..], freezeFlagName);
                  observedFlagValue == if later.Some? then later.value else old(observedFlagValue)
      {
        i := i - 1;
        assert events[i..][1..] == events[i + 1..];
        DataValueChanged(events[i].0, events[i].1);
      }
    }

    /** dataIsConsistent, the state table for the flag: a thawed set seeing a true flag
      * becomes frozen and freezes its members; a false flag thaws the set, and a frozen
      * set's members with it unless it is still initializing. The first callback ends the
      * initialization, freezing the tentative names if the set is now frozen. */
    method DataIsConsistent()
      modifies this`currentState, this`initializing, this`tentativeFreezables
      modifies freezer`itemsToFreeze, freezer`itemsToThaw
      ensures currentState == AfterFlag(old(currentState), observedFlagValue)
      ensures !initializing && (old(initializing) ==> tentativeFreezables == {})
      ensures !old(initializing) ==> tentativeFreezables == old(tentativeFreezables)
      ensures var q0 := (old(freezer.itemsToFreeze), old(freezer.itemsToThaw));
              var q := (freezer.itemsToFreeze, freezer.itemsToThaw);
              if observedFlagValue then
                if old(currentState) == FDS_THAWED then
                  q == FreezingAll(q0.0, q0.1, if old(initializing) then old(tentativeFreezables) + dataItems else dataItems)
                else if old(currentState) == FDS_FROZEN && old(initializing) then
                  q == FreezingAll(q0.0, q0.1, old(tentativeFreezables))
                else q == q0
              else if old(currentState) == FDS_FROZEN && !old(initializing) then
                q == ThawingAll(q0.0, q0.1, dataItems)
              else q == q0
    {
      if observedFlagValue {
        if currentState == FDS_THAWED {
          currentState := FDS_FROZEN;
          FreezeItems(dataItems);
        }
      } else {
        if currentState == FDS_FROZEN && !initializing {
          ThawItems(dataItems);
        }
        currentState := FDS_THAWED;
      }
      if initializing {
        initializing := false;
        if currentState == FDS_FROZEN {
          FreezeItems(tentativeFreezables);
        }
        tentativeFreezables := {};
      }
    }

    /** dataAdded for a name under the set's prefix, the state table for new members:
      * freeze flags are skipped, and so are names the regular expression does not match
      * (`matches`; None when the expression is malformed, which disposes of the set). A
      * frozen member found by a grandfathered set freezes the set and the members before
      * it; a live member found by a frozen set is frozen. The member is then recorded. */
    method DataAdded(dataName: string, matches: Option<bool>, valueIsFrozen: bool)
      modifies this`dataItems, this`currentState, this`tentativeFreezables
      modifies freezer`itemsToFreeze, freezer`itemsToThaw
      ensures var q0 := (old(freezer.itemsToFreeze), old(freezer.itemsToThaw));
              var q := (freezer.itemsToFreeze, freezer.itemsToThaw);
              var tq := (old(tentativeFreezables), q0);
              var t := (tentativeFreezables, q);
              if IsFreezeFlagElement(dataName) || matches == Some(false) then
                dataItems == old(dataItems) && currentState == old(currentState) && t == tq
              else if matches.None? then
                dataItems == {} && currentState == old(currentState) && t == tq
              else
                dataItems == old(dataItems) + {dataName} &&
                if old(currentState) == FDS_GRANDFATHERED && valueIsFrozen then
                  currentState == FDS_FROZEN &&
                  (initializing ==> t == (old(tentativeFreezables) + old(dataItems), q0)) &&
                  (!initializing ==> t == (old(tentativeFreezables), FreezingAll(q0.0, q0.1, old(dataItems))))
                else if old(currentState) == FDS_FROZEN && !valueIsFrozen then
                  currentState == FDS_FROZEN &&
                  (initializing ==> t == (old(tentativeFreezables) + {dataName}, q0)) &&
                  (!initializing ==> t == (old(tentativeFreezables), Freezing(q0.0, q0.1, dataName)))
                else
                  currentState == old(currentState) && t == tq
    {
      if IsFreezeFlagElement(dataName) {
        return;
      }
      if matches.None? {
        Dispose();
        return;
      }
      if !matches.value {
        return;
      }
      if currentState == FDS_GRANDFATHERED && valueIsFrozen {
        FreezeItems(dataItems);
        currentState := FDS_FROZEN;
      } else if currentState == FDS_FROZEN && !valueIsFrozen {
        FreezeOne(dataName);
      }
      dataItems := dataItems + {dataName};
    }

    /** The set's freeze(itemName). */
    method FreezeOne(itemName: string)
      modifies this`tentativeFreezables, freezer`itemsToFreeze, freezer`itemsToThaw
      ensures initializing ==> tentativeFreezables == old(tentativeFreezables) + {itemName} &&
                               freezer.itemsToFreeze == old(freezer.itemsToFreeze) && freezer.itemsToThaw == old(freezer.itemsToThaw)
      ensures !initializing ==> tentativeFreezables == old(tentativeFreezables) &&
                                (freezer.itemsToFreeze, freezer.itemsToThaw) ==
                                Freezing(old(freezer.itemsToFreeze), old(freezer.itemsToThaw), itemName)
    {
      if initializing {
        tentativeFreezables := tentativeFreezables + {itemName};
      } else {
        freezer.Freeze(itemName);
      }
    }

    /** dataRemoved: the name stops being a member. */
    method DataRemoved(dataName: string)
      modifies this`dataItems
      ensures dataItems == old(dataItems) - {dataName}
    {
      dataItems := dataItems - {dataName};
    }
  }

  /** The freezer: the names waiting to be frozen and to be thawed, and the FrozenDataSet of
    * every freeze flag in the repository. */
  class DataFreezer {
    var itemsToFreeze: set<string>
    var itemsToThaw: set<string>
    var frozenDataSets: map<string, FrozenDataSet>

    constructor ()
      ensures itemsToFreeze == {} && itemsToThaw == {} && frozenDataSets == map[]
    {
      itemsToFreeze := {};
      itemsToThaw := {};
      frozenDataSets := map[];
    }

    /** freeze: a pending thaw of the name is cancelled, otherwise the name is queued. */
    method Freeze(dataName: string)
      modifies this`itemsToFreeze, this`itemsToThaw
      ensures (itemsToFreeze, itemsToThaw) == Freezing(old(itemsToFreeze), old(itemsToThaw), dataName)
      ensures Disjoint(old(itemsToFreeze), old(itemsToThaw)) ==> Disjoint(itemsToFreeze, itemsToThaw)
    {
      if dataName in itemsToThaw {
        itemsToThaw := itemsToThaw - {dataName};
      } else {
        itemsToFreeze := itemsToFreeze + {dataName};
      }
    }

    /** thaw: a pending freeze of the name is cancelled, otherwise the name is queued. */
    method Thaw(dataName: string)
      modifies this`itemsToFreeze, this`itemsToThaw
      ensures (itemsToFreeze, itemsToThaw) == Thawing(old(itemsToFreeze), old(itemsToThaw), dataName)
      ensures Disjoint(old(itemsToFreeze), old(itemsToThaw)) ==> Disjoint(itemsToFreeze, itemsToThaw)
    {
      if dataName in itemsToFreeze {
        itemsToFreeze := itemsToFreeze - {dataName};
      } else {
        itemsToThaw := itemsToThaw + {dataName};
      }
    }

    /** dataAdded: a freeze flag without a set gets a new one. */
    method DataAdded(dataName: string)
      modifies this`frozenDataSets
      ensures IsFreezeFlagElement(dataName) && dataName !in old(frozenDataSets) ==>
                dataName in frozenDataSets && fresh(frozenDataSets[dataName]) &&
                frozenDataSets[dataName].freezeFlagName == dataName &&
                frozenDataSets[dataName].currentState == FDS_GRANDFATHERED &&
                frozenDataSets == old(frozenDataSets)[dataName := frozenDataSets[dataName]]
      ensures !(IsFreezeFlagElement(dataName) && dataName !in old(frozenDataSets)) ==>
                frozenDataSets == old(frozenDataSets)
    {
      if IsFreezeFlagElement(dataName) && dataName !in frozenDataSets {
        var fds := new FrozenDataSet(this, dataName);
        frozenDataSets := frozenDataSets[dataName := fds];
      }
    }

    /** dataRemoved: the set of a removed freeze flag is dropped and disposed of. */
    method DataRemoved(dataName: string)
      modifies this`frozenDataSets
      modifies if IsFreezeFlagElement(dataName) && dataName in frozenDataSets then {frozenDataSets[dataName]} else {}
      ensures frozenDataSets == if IsFreezeFlagElement(dataName) then old(frozenDataSets) - {dataName} else old(frozenDataSets)
      ensures IsFreezeFlagElement(dataName) && dataName in old(frozenDataSets) ==> old(frozenDataSets)[dataName].dataItems == {}
    {
      if !IsFreezeFlagElement(dataName) {
        return;
      }
      if dataName in frozenDataSets {
        var fds := frozenDataSets[dataName];
        frozenDataSets := frozenDataSets - {dataName};
        fds.Dispose();
      } else {
        frozenDataSets := frozenDataSets - {dataName};
      }
    }

    /** performFreeze: the element's value (realized) is wrapped in a frozen value, with the
      * save string `wrapText` gives for the name, the value, the datafile's prefix and the
      * inherited default, and stored back with putValue. A missing element, a value the
      * freezer does not wrap (a frozen one included) and a putValue nested too deep change
      * no value. No other name's value changes. */
    method PerformFreeze(repo: DataRepository, dataName: string, wrapText: (string, Value, string, Option<string>) -> string)
      requires repo.Consistent()
      modifies repo`recursionDepth, repo`data, repo`datafiles, repo`saved, repo`events
      ensures repo.Consistent() && repo.recursionDepth == old(repo.recursionDepth)
      ensures forall n :: n != dataName ==> ValueAt(repo.data, n) == ValueAt(old(repo.data), n)
      ensures forall n :: n != dataName ==> SameElement(old(repo.data), repo.data, n)
      ensures SameLayout(old(repo.datafiles), repo.datafiles)
      ensures ValueAt(repo.data, dataName) ==
              FreezeOutcome(old(repo.data), old(repo.datafiles), old(repo.includedFileCache), old(repo.recursionDepth), dataName, wrapText)
      ensures !Freezable(ValueAt(old(repo.data), dataName)) || old(repo.recursionDepth) >= MAX_RECURSION_DEPTH ==>
                ValueAt(repo.data, dataName) == ValueAt(old(repo.data), dataName)
      ensures Freezable(ValueAt(old(repo.data), dataName)) && old(repo.recursionDepth) < MAX_RECURSION_DEPTH ==>
                var live := ValueAt(old(repo.data), dataName).value;
                var e := old(repo.data)[dataName];
                var text := wrapText(dataName, live, ElementPrefix(old(repo.datafiles), e),
                                     LookupDefaultValue(old(repo.data), old(repo.datafiles), old(repo.includedFileCache), dataName));
                ValueAt(repo.data, dataName) == (if Survives(e) then Some(FrozenValue(live, text)) else None) &&
                (Survives(e) ==> dataName in repo.data && repo.data[dataName].value == Some(FrozenValue(live, text)) &&
                                 repo.data[dataName].datafile == e.datafile && repo.data[dataName].listeners == e.listeners)
    {
      if dataName !in repo.data {
        return;
      }
      var element := repo.data[dataName];
      var prefix := ElementPrefix(repo.datafiles, element);
      var defVal := LookupDefaultValue(repo.data, repo.datafiles, repo.includedFileCache, dataName);
      ghost var before := repo.data;
      var value := repo.GetValue(dataName);
      ValueAtOfSame(before, repo.data, dataName);
      if !Freezable(value) {
        forall n ensures ValueAt(repo.data, n) == ValueAt(before, n) {
          ValueAtOfSame(before, repo.data, n);
        }
        return;
      }
      var frozenValue := FrozenValue(value.value, wrapText(dataName, value.value, prefix, defVal));
      ghost var looked := repo.data;
      ghost var f := repo.PutValue(dataName, Some(frozenValue));
      if old(repo.recursionDepth) < MAX_RECURSION_DEPTH {
        PutOnExisting(before, looked, dataName, Some(frozenValue));
      } else {
        forall n ensures ValueAt(repo.data, n) == ValueAt(before, n) {
          ValueAtOfSame(before, looked, n);
        }
      }
    }

    /** performThaw: a frozen value (as stored, without realizing) is replaced through
      * putValue by the live value it was made from. No other name's value changes. */
    method PerformThaw(repo: DataRepository, dataName: string)
      requires repo.Consistent()
      modifies repo`recursionDepth, repo`data, repo`datafiles, repo`saved, repo`events
      ensures repo.Consistent() && repo.recursionDepth == old(repo.recursionDepth)
      ensures forall n :: n != dataName ==> ValueAt(repo.data, n) == ValueAt(old(repo.data), n)
      ensures forall n :: n != dataName ==> SameElement(old(repo.data), repo.data, n)
      ensures ValueAt(repo.data, dataName) == ThawOutcome(old(repo.data), old(repo.recursionDepth), dataName)
      ensures !(dataName in old(repo.data) && IsFrozen(old(repo.data)[dataName].value)) ||
              old(repo.recursionDepth) >= MAX_RECURSION_DEPTH ==>
                ValueAt(repo.data, dataName) == ValueAt(old(repo.data), dataName)
      ensures dataName in old(repo.data) && IsFrozen(old(repo.data)[dataName].value) &&
              old(repo.recursionDepth) < MAX_RECURSION_DEPTH ==>
                var e := old(repo.data)[dataName];
                ValueAt(repo.data, dataName) ==
                if Survives(e) then RealizedValue(Some(e.value.value.form.live)) else None
    {
      if dataName !in repo.data {
        return;
      }
      var value := repo.data[dataName].value;
      if !IsFrozen(value) {
        return;
      }
      var thawedValue := value.value.form.live;
      ghost var before := repo.data;
      assert SameValues(before, before);
      ghost var f := repo.PutValue(dataName, Some(thawedValue));
      if old(repo.recursionDepth) < MAX_RECURSION_DEPTH {
        PutOnExisting(before, before, dataName, Some(thawedValue));
      }
    }

    /** freezeAll: the waiting names are popped and frozen, least first, until none is left;
      * the value of no other name changes. */
    method FreezeAll(repo: DataRepository, wrapText: (string, Value, string, Option<string>) -> string)
      returns (ghost order: seq<string>)
      requires repo.Consistent()
      modifies this`itemsToFreeze, repo`recursionDepth, repo`data, repo`datafiles, repo`saved, repo`events
      ensures itemsToFreeze == {} && repo.Consistent() && repo.recursionDepth == old(repo.recursionDepth)
      ensures (set x | x in order) == old(itemsToFreeze) && StrictlySorted(order)
      ensures forall n :: n in old(itemsToFreeze) ==>
                ValueAt(repo.data, n) ==
                FreezeOutcome(old(repo.data), old(repo.datafiles), old(repo.includedFileCache), old(repo.recursionDepth), n, wrapText)
      ensures forall n :: n !in old(itemsToFreeze) ==> SameElement(old(repo.data), repo.data, n)
      ensures forall n :: n !in old(itemsToFreeze) ==> ValueAt(repo.data, n) == ValueAt(old(repo.data), n)
      ensures SameLayout(old(repo.datafiles), repo.datafiles)
    {
      ghost var d0, f0, cache, depth, queued := repo.data, repo.datafiles, repo.includedFileCache, repo.recursionDepth, itemsToFreeze;
      order := [];
      while true
        invariant repo.Consistent() && repo.recursionDepth == depth && repo.includedFileCache == cache
        invariant SortedSoFar(queued, order, itemsToFreeze)
        invariant FreezeProgress(d0, f0, cache, depth, wrapText, queued, itemsToFreeze, repo.data, repo.datafiles)
        decreases |itemsToFreeze|
      {
        var item, rest := Pop(itemsToFreeze);
        if item.None? {
          break;
        }
        SortedSoFarStep(queued, order, itemsToFreeze, item.value);
        ghost var pending := itemsToFreeze;
        order := order + [item.value];
        itemsToFreeze := rest;
        FreezeNext(repo, item.value, wrapText, d0, f0, queued, pending);
      }
    }

    /** One turn of freezeAll's loop: the popped name is frozen, and the progress so far
      * carries over with one name fewer pending. */
    method FreezeNext(repo: DataRepository, item: string, wrapText: (string, Value, string, Option<string>) -> string,
                      ghost d0: map<string, Element>, ghost f0: seq<DataFile>, ghost queued: set<string>, ghost pending: set<string>)
      requires repo.Consistent() && FilesConsistent(d0, f0, repo.includedFileCache)
      requires FreezeProgress(d0, f0, repo.includedFileCache, repo.recursionDepth, wrapText, queued, pending, repo.data, repo.datafiles)
      requires item in pending && pending <= queued
      modifies repo`recursionDepth, repo`data, repo`datafiles, repo`saved, repo`events
      ensures repo.Consistent() && repo.recursionDepth == old(repo.recursionDepth)
      ensures FreezeProgress(d0, f0, repo.includedFileCache, repo.recursionDepth, wrapText, queued, pending - {item},
                             repo.data, repo.datafiles)
    {
      ghost var d, f := repo.data, repo.datafiles;
      PerformFreeze(repo, item, wrapText);
      FreezeProgressStep(d0, f0, repo.includedFileCache, repo.recursionDepth, wrapText, queued, pending, d, f, item,
                         repo.data, repo.datafiles);
    }

    /** thawAll: the waiting names are popped and thawed, least first, until none is left;
      * the value of no other name changes. */
    method ThawAll(repo: DataRepository) returns (ghost order: seq<string>)
      requires repo.Consistent()
      modifies this`itemsToThaw, repo`recursionDepth, repo`data, repo`datafiles, repo`saved, repo`events
      ensures itemsToThaw == {} && repo.Consistent() && repo.recursionDepth == old(repo.recursionDepth)
      ensures (set x | x in order) == old(itemsToThaw) && StrictlySorted(order)
      ensures forall n :: n in old(itemsToThaw) ==> ValueAt(repo.data, n) == ThawOutcome(old(repo.data), old(repo.recursionDepth), n)
      ensures forall n :: n !in old(itemsToThaw) ==> ValueAt(repo.data, n) == ValueAt(old(repo.data), n)
    {
      ghost var d0, depth, queued := repo.data, repo.recursionDepth, itemsToThaw;
      order := [];
      while true
        invariant repo.Consistent() && repo.recursionDepth == depth
        invariant SortedSoFar(queued, order, itemsToThaw)
        invariant ThawProgress(d0, depth, queued, itemsToThaw, repo.data)
        decreases |itemsToThaw|
      {
        var item, rest := Pop(itemsToThaw);
        if item.None? {
          break;
        }
        SortedSoFarStep(queued, order, itemsToThaw, item.value);
        ghost var pending := itemsToThaw;
        order := order + [item.value];
        itemsToThaw := rest;
        ThawNext(repo, item.value, d0, queued, pending);
      }
      forall n | n !in queued
        ensures ValueAt(repo.data, n) == ValueAt(d0, n)
      {
        assert SameElement(d0, repo.data, n);
      }
    }

    /** One turn of thawAll's loop, likewise. */
    method ThawNext(repo: DataRepository, item: string, ghost d0: map<string, Element>, ghost queued: set<string>,
                    ghost pending: set<string>)
      requires repo.Consistent() && ThawProgress(d0, repo.recursionDepth, queued, pending, repo.data)
      requires item in pending && pending <= queued
      modifies repo`recursionDepth, repo`data, repo`datafiles, repo`saved, repo`events
      ensures repo.Consistent() && repo.recursionDepth == old(repo.recursionDepth)
      ensures ThawProgress(d0, repo.recursionDepth, queued, pending - {item}, repo.data)
    {
      ghost var d := repo.data;
      PerformThaw(repo, item);
      ThawProgressStep(d0, repo.recursionDepth, queued, pending, d, item, repo.data);
    }

    /** dataIsConsistent: all waiting work is done, the freezing first. */
    method DataIsConsistent(repo: DataRepository, wrapText: (string, Value, string, Option<string>) -> string)
      requires repo.Consistent()
      modifies this`itemsToFreeze, this`itemsToThaw
      modifies repo`recursionDepth, repo`data, repo`datafiles, repo`saved, repo`events
      ensures itemsToFreeze == {} && itemsToThaw == {}
      ensures repo.Consistent() && repo.recursionDepth == old(repo.recursionDepth)
      ensures forall n :: n !in old(itemsToFreeze) && n !in old(itemsToThaw) ==>
                ValueAt(repo.data, n) == ValueAt(old(repo.data), n)
      ensures forall n :: n in old(itemsToFreeze) && n !in old(itemsToThaw) ==>
                ValueAt(repo.data, n) ==
                FreezeOutcome(old(repo.data), old(repo.datafiles), old(repo.includedFileCache), old(repo.recursionDepth), n, wrapText)
      ensures forall n :: n in old(itemsToThaw) && n !in old(itemsToFreeze) ==>
                ValueAt(repo.data, n) == ThawOutcome(old(repo.data), old(repo.recursionDepth), n)
    {
      ghost var frozen := FreezeAll(repo, wrapText);
      ghost var thawed := ThawAll(repo);
    }

    /** Freezing an element that survives putValue and then thawing it gives back the value
      * it had, whatever save string the frozen wrapper had. */
    method FreezeThenThaw(repo: DataRepository, dataName: string, wrapText: (string, Value, string, Option<string>) -> string)
      requires repo.Consistent() && repo.recursionDepth < MAX_RECURSION_DEPTH
      requires Freezable(ValueAt(repo.data, dataName)) && Survives(repo.data[dataName])
      modifies repo`recursionDepth, repo`data, repo`datafiles, repo`saved, repo`events
      ensures repo.Consistent()
      ensures forall n :: ValueAt(repo.data, n) == ValueAt(old(repo.data), n)
    {
      PerformFreeze(repo, dataName, wrapText);
      PerformThaw(repo, dataName);
    }
  }
}
