/**
 * The user group manager of a team dashboard: the map of shared and custom (personal)
 * groups by ID, the checks made before a group is changed, the reconciliation of the map
 * with a group file that was read, the data elements that mirror each group, and the
 * bookkeeping of which of the two group files still has to be written.
 *
 * The XML files, the data repository and the permission check are outside this model:
 * the groups a file holds are an input, a write's success is an input, and the repository
 * is a map from data names to values with the set of pinned names.
 */
module UserGroups {
  import opened Wrappers
  import opened Strings

  /** The ID prefix of custom groups. */
  const CUSTOM_ID_PREFIX: string := "c."
  const DATA_PREFIX: string := "User_Group/"
  const NAME_SUFFIX: string := "//Name"
  const DATASET_IDS_SUFFIX: string := "//Dataset_IDs"
  /** What a group without dataset IDs stores instead of an empty list. */
  const EMPTY_DATASET_IDS: string := "*empty*"
  /** The reason shared groups cannot be changed in a read-only dashboard. */
  const READ_ONLY_CODE: string := "Read_Only"

  /** A group: its ID (none until it is first saved), whether it is custom, its display
    * text (toString) and the dataset IDs of its members. Two groups are equal when all of
    * these are. */
  datatype UserGroup = UserGroup(id: Option<string>, custom: bool, text: string, datasetIDs: seq<string>)

  /** A group as read from a group file, before the kind of the file is attached. */
  datatype GroupXml = GroupXml(id: string, text: string, datasetIDs: seq<string>)

  /** The values the manager stores in the repository: a StringData or a ListData. */
  datatype DataValue = StringValue(s: string) | ListValue(items: seq<string>)

  /** A UserGroupEditEvent: the group, and whether it was deleted. */
  datatype GroupEvent = GroupEdited(group: UserGroup, deleted: bool)

  /** Why prepareForModification refuses a change. */
  datatype GroupError =
    | ModificationNotAllowed            // IllegalStateException: a personal dashboard
    | InvalidGroupID                    // IllegalArgumentException
    | SharedGroupsReadOnly(code: string) // IllegalStateException: read-only mode

  /** What saveAll can end in besides a result: the ConcurrentModificationException its
    * loop raises when a file it saves leaves the set it is walking. */
  datatype SaveAllFailure = ConcurrentModification

  /** The text Java makes of a group ID in a string concatenation. */
  function IdText(id: Option<string>): string
  {
    if id.Some? then id.value else "null"
  }

  /** The name of one of the data elements that mirror a group. */
  function DataName(id: Option<string>, suffix: string): string
  {
    DATA_PREFIX + IdText(id) + suffix
  }

  /** Different groups' data elements, and a group's two elements, have different names. */
  lemma DataNamesDiffer(id1: string, s1: string, id2: string, s2: string)
    requires s1 == NAME_SUFFIX || s1 == DATASET_IDS_SUFFIX
    requires s2 == NAME_SUFFIX || s2 == DATASET_IDS_SUFFIX
    requires DataName(Some(id1), s1) == DataName(Some(id2), s2)
    ensures id1 == id2 && s1 == s2
  {
    var a, b := DataName(Some(id1), s1), DataName(Some(id2), s2);
    assert a[|a| - 1] == s1[|s1| - 1];
    assert b[|b| - 1] == s2[|s2| - 1];
    assert s1 == s2;
    assert a[|DATA_PREFIX|..|a| - |s1|] == id1;
    assert b[|DATA_PREFIX|..|b| - |s2|] == id2;
  }

  /** The ListData of a group's dataset IDs, or the marker list when it has none. */
  function DatasetIDsValue(datasetIDs: seq<string>): (r: DataValue)
    ensures r.ListValue? && r.items != []
    ensures datasetIDs != [] ==> r.items == datasetIDs
  {
    if datasetIDs == [] then ListValue([EMPTY_DATASET_IDS]) else ListValue(datasetIDs)
  }

  /** The repository after putValue(name, value): a null value leaves no value. */
  function Put(values: map<string, DataValue>, name: string, value: Option<DataValue>): (r: map<string, DataValue>)
    ensures value.Some? ==> name in r && r[name] == value.value
    ensures value.None? ==> name !in r
    ensures forall n :: n != name ==> (n in r <==> n in values) && (n in r ==> r[n] == values[n])
  {
    if value.Some? then values[name := value.value] else values - {name}
  }

  /** generateUniqueID: the custom prefix for a custom group, then a random number and the
    * time in milliseconds, both in base 36, joined by a dot. */
  function GenerateUniqueID(custom: bool, random: nat, millis: nat): (r: string)
    ensures custom ==> StartsWith(r, CUSTOM_ID_PREFIX)
  {
    (if custom then CUSTOM_ID_PREFIX else "") + Base36(random) + "." + Base36(millis)
  }

  function Base36Digit(d: nat): (c: char)
    requires d < 36
  {
    "0123456789abcdefghijklmnopqrstuvwxyz"[d]
  }

  /** Integer.toString(n, 36) for a non-negative n. */
  function Base36(n: nat): (r: string)
    ensures |r| >= 1
    ensures n < 36 ==> r == [Base36Digit(n)]
    decreases n
  {
    if n < 36 then [Base36Digit(n)] else Base36(n / 36) + [Base36Digit(n % 36)]
  }

  /** A shared group whose random number is 12 gets an ID starting with the custom prefix,
    * so prepareForModification refuses every later change of it and reading the shared
    * file drops it. */
  lemma SharedIDMayLookCustom(millis: nat)
    ensures StartsWith(GenerateUniqueID(false, 12, millis), CUSTOM_ID_PREFIX)
  {
    var r := GenerateUniqueID(false, 12, millis);
    assert r[..2] == "c.";
  }

  /** The groups readFile keeps from a file: those whose ID has the prefix of the requested
    * kind, each marked with that kind; a later group replaces an earlier one with its ID. */
  function ReadGroups(parsed: seq<GroupXml>, custom: bool): (r: map<string, UserGroup>)
    ensures forall k :: k in r ==> r[k].id == Some(k) && r[k].custom == custom && StartsWith(k, CUSTOM_ID_PREFIX) == custom
    ensures forall i :: 0 <= i < |parsed| && StartsWith(parsed[i].id, CUSTOM_ID_PREFIX) == custom ==> parsed[i].id in r
    ensures forall k :: k in r ==> exists i :: 0 <= i < |parsed| && parsed[i].id == k
  {
    if parsed == [] then map[]
    else
      var init := ReadGroups(parsed[..|parsed| - 1], custom);
      var last := parsed[|parsed| - 1];
      assert forall i :: 0 <= i < |parsed| - 1 ==> parsed[..|parsed| - 1][i] == parsed[i];
      if StartsWith(last.id, CUSTOM_ID_PREFIX) == custom then
        init[last.id := UserGroup(Some(last.id), custom, last.text, last.datasetIDs)]
      else init
  }

  /** readFile's loop over the groups of a file. */
  method ReadFile(parsed: seq<GroupXml>, custom: bool) returns (result: map<string, UserGroup>)
    ensures result == ReadGroups(parsed, custom)
  {
    result := map[];
    var i := 0;
    while i < |parsed|
      invariant 0 <= i <= |parsed|
      invariant result == ReadGroups(parsed[..i], custom)
    {
      var e := parsed[i];
      assert parsed[..i + 1][..i] == parsed[..i];
      if custom == StartsWith(e.id, CUSTOM_ID_PREFIX) {
        result := result[e.id := UserGroup(Some(e.id), custom, e.text, e.datasetIDs)];
      }
      i := i + 1;
    }
    assert parsed[..|parsed|] == parsed;
  }


  /** The IDs of in-memory groups of the file's kind that the file no longer holds. */
  function Removed(groups: map<string, UserGroup>, read: map<string, UserGroup>, custom: bool): set<string>
  {
    set k | k in groups && groups[k].custom == custom && k !in read
  }

  /** The IDs of groups read that differ from the in-memory group with their ID, if any. */
  function Changed(groups: map<string, UserGroup>, read: map<string, UserGroup>): set<string>
  {
    set k | k in read && (k !in groups || groups[k] != read[k])
  }

  /** The map after reloadGroups: the groups of the file's kind that the file no longer
    * holds are gone, every group read is in, and the rest stays. */
  function Reconciled(groups: map<string, UserGroup>, read: map<string, UserGroup>, custom: bool): (r: map<string, UserGroup>)
    ensures forall k :: k in groups && groups[k].custom == custom && k !in read ==> k !in r
    ensures forall k :: k in groups && groups[k].custom != custom && k !in read ==> k in r && r[k] == groups[k]
    ensures forall k :: k in read ==> k in r && r[k] == read[k]
    ensures forall k :: k in r ==> k in groups || k in read
  {
    (groups - Removed(groups, read, custom)) + read
  }

  /** The map once prepareForModification agrees to change `g`: a custom group's change
    * reads the custom file again first, when there is one. */
  function Prepared(groups: map<string, UserGroup>, g: UserGroup, customFile: Option<seq<GroupXml>>): map<string, UserGroup>
  {
    if g.custom && customFile.Some? then Reconciled(groups, ReadGroups(customFile.value, true), true) else groups
  }

  /** Every group of `groups` is mirrored in `values`, and every name of no such group holds
    * what it held in `base`. */
  ghost predicate MirrorsGroups(values: map<string, DataValue>, groups: map<string, UserGroup>, base: map<string, DataValue>)
  {
    (forall k :: k in groups ==> Mirrored(values, groups[k])) &&
    (forall n :: Outside(n, groups.Keys) ==> (n in values <==> n in base) && (n in values ==> values[n] == base[n]))
  }

  /** No two groups of `gs` share an ID, and each has one. */
  ghost predicate DistinctIDs(gs: seq<UserGroup>)
  {
    (forall i :: 0 <= i < |gs| ==> gs[i].id.Some?) &&
    forall i, j :: 0 <= i < j < |gs| ==> gs[i].id != gs[j].id
  }

  /** `gs` lists, each once and in some order, the groups of `source` whose IDs are in `ids`. */
  ghost predicate Enumerates(source: map<string, UserGroup>, ids: set<string>, gs: seq<UserGroup>)
  {
    DistinctIDs(gs) &&
    (forall i :: 0 <= i < |gs| ==> gs[i].id.value in ids && gs[i].id.value in source && source[gs[i].id.value] == gs[i]) &&
    (forall k :: k in ids && k in source ==> source[k] in gs)
  }

  /** The data elements of group `g` hold its text and dataset IDs. */
  ghost predicate Mirrored(values: map<string, DataValue>, g: UserGroup)
  {
    DataName(g.id, NAME_SUFFIX) in values && values[DataName(g.id, NAME_SUFFIX)] == StringValue(g.text) &&
    DataName(g.id, DATASET_IDS_SUFFIX) in values && values[DataName(g.id, DATASET_IDS_SUFFIX)] == DatasetIDsValue(g.datasetIDs)
  }

  /** The data elements of the group with ID `id` hold nothing. */
  ghost predicate Cleared(values: map<string, DataValue>, id: Option<string>)
  {
    DataName(id, NAME_SUFFIX) !in values && DataName(id, DATASET_IDS_SUFFIX) !in values
  }

  /** `n` is not the name of a data element of a group with an ID in `ids`. */
  ghost predicate Outside(n: string, ids: set<string>)
  {
    forall k :: k in ids ==> n != DataName(Some(k), NAME_SUFFIX) && n != DataName(Some(k), DATASET_IDS_SUFFIX)
  }

  /** `n` is not the name of a data element of a group in `gs`. */
  ghost predicate OutsideAll(n: string, gs: seq<UserGroup>)
  {
    forall i :: 0 <= i < |gs| ==> n != DataName(gs[i].id, NAME_SUFFIX) && n != DataName(gs[i].id, DATASET_IDS_SUFFIX)
  }

  /** A group's two data elements have different names. */
  lemma OwnNamesDiffer(id: Option<string>)
    ensures DataName(id, NAME_SUFFIX) != DataName(id, DATASET_IDS_SUFFIX)
  {
    var a, b := DataName(id, NAME_SUFFIX), DataName(id, DATASET_IDS_SUFFIX);
    assert a[|a| - 1] != b[|b| - 1];
  }

  /** The repository after groupWasSaved(g). */
  function SavedValues(values: map<string, DataValue>, g: UserGroup): (r: map<string, DataValue>)
    ensures Mirrored(r, g)
    ensures forall n :: n != DataName(g.id, NAME_SUFFIX) && n != DataName(g.id, DATASET_IDS_SUFFIX) ==>
                          (n in r <==> n in values) && (n in r ==> r[n] == values[n])
  {
    OwnNamesDiffer(g.id);
    values[DataName(g.id, NAME_SUFFIX) := StringValue(g.text)][DataName(g.id, DATASET_IDS_SUFFIX) := DatasetIDsValue(g.datasetIDs)]
  }

  /** The pinned names after groupWasSaved(g): those of its elements that held nothing. */
  function SavedPins(values: map<string, DataValue>, pins: set<string>, g: UserGroup): (r: set<string>)
    ensures pins <= r
    ensures forall n :: n in r - pins ==> n !in values
  {
    pins +
    (if DataName(g.id, NAME_SUFFIX) in values then {} else {DataName(g.id, NAME_SUFFIX)}) +
    (if DataName(g.id, DATASET_IDS_SUFFIX) in values then {} else {DataName(g.id, DATASET_IDS_SUFFIX)})
  }

  /** The repository after groupWasDeleted(g). */
  function DeletedValues(values: map<string, DataValue>, g: UserGroup): (r: map<string, DataValue>)
    ensures Cleared(r, g.id)
    ensures forall n :: n != DataName(g.id, NAME_SUFFIX) && n != DataName(g.id, DATASET_IDS_SUFFIX) ==>
                          (n in r <==> n in values) && (n in r ==> r[n] == values[n])
  {
    values - {DataName(g.id, NAME_SUFFIX), DataName(g.id, DATASET_IDS_SUFFIX)}
  }

  /** The repository after the groups of `gs` are deleted in order. */
  function AfterDeletions(values: map<string, DataValue>, gs: seq<UserGroup>): map<string, DataValue>
  {
    if gs == [] then values else DeletedValues(AfterDeletions(values, gs[..|gs| - 1]), gs[|gs| - 1])
  }

  /** The repository after the groups of `gs` are saved in order. */
  function AfterSaves(values: map<string, DataValue>, gs: seq<UserGroup>): map<string, DataValue>
  {
    if gs == [] then values else SavedValues(AfterSaves(values, gs[..|gs| - 1]), gs[|gs| - 1])
  }

  /** The pinned names after the groups of `gs` are saved in order. */
  function PinsAfterSaves(values: map<string, DataValue>, pins: set<string>, gs: seq<UserGroup>): set<string>
  {
    if gs == [] then pins
    else SavedPins(AfterSaves(values, gs[..|gs| - 1]), PinsAfterSaves(values, pins, gs[..|gs| - 1]), gs[|gs| - 1])
  }

  /** The events fired for the groups of `gs`, in order. */
  function Announced(gs: seq<UserGroup>, deleted: bool): (r: seq<GroupEvent>)
    ensures |r| == |gs|
  {
    if gs == [] then [] else Announced(gs[..|gs| - 1], deleted) + [GroupEdited(gs[|gs| - 1], deleted)]
  }

  /** Appending a group to an enumeration that lacks its ID enumerates one more ID. */
  lemma EnumeratesStep(source: map<string, UserGroup>, ids: set<string>, gs: seq<UserGroup>, k: string)
    requires Enumerates(source, ids, gs)
    requires k in source && source[k].id == Some(k) && k !in ids
    ensures Enumerates(source, ids + {k}, gs + [source[k]])
  {
    var next := gs + [source[k]];
    assert forall i :: 0 <= i < |gs| ==> next[i] == gs[i];
    forall i, j | 0 <= i < j < |next|
      ensures next[i].id != next[j].id
    {
      if j == |gs| {
        assert next[i].id.value in ids;
      }
    }
  }

  /** One step of the second loop of reloadGroups, on the map and on the enumeration of the
    * groups that changed. */
  lemma PutStep(G: map<string, UserGroup>, read: map<string, UserGroup>, pending: set<string>,
                saved: seq<UserGroup>, k: string)
    requires k in read && read[k].id == Some(k) && k in pending
    requires Enumerates(read, Changed(G, read) - pending, saved)
    ensures (k in G + (read - pending)) == (k in G)
    ensures k in G ==> (G + (read - pending))[k] == G[k]
    ensures (G + (read - pending))[k := read[k]] == G + (read - (pending - {k}))
    ensures k !in G || G[k] != read[k] ==> Enumerates(read, Changed(G, read) - (pending - {k}), saved + [read[k]])
    ensures k in G && G[k] == read[k] ==> Enumerates(read, Changed(G, read) - (pending - {k}), saved)
  {
    if k !in G || G[k] != read[k] {
      assert (Changed(G, read) - pending) + {k} == Changed(G, read) - (pending - {k});
      EnumeratesStep(read, Changed(G, read) - pending, saved, k);
    } else {
      assert Changed(G, read) - pending == Changed(G, read) - (pending - {k});
    }
  }

  /** One more deletion at the end of a sequence of them, and its event. */
  lemma DeletionStep(values: map<string, DataValue>, events0: seq<GroupEvent>, gs: seq<UserGroup>, g: UserGroup)
    ensures AfterDeletions(values, gs + [g]) == DeletedValues(AfterDeletions(values, gs), g)
    ensures events0 + Announced(gs + [g], true) == events0 + Announced(gs, true) + [GroupEdited(g, true)]
  {
    assert (gs + [g])[..|gs|] == gs;
  }

  /** One more save at the end of a sequence of them, and its event. */
  lemma SaveStep(values: map<string, DataValue>, pins: set<string>, events0: seq<GroupEvent>, gs: seq<UserGroup>, g: UserGroup)
    ensures AfterSaves(values, gs + [g]) == SavedValues(AfterSaves(values, gs), g)
    ensures PinsAfterSaves(values, pins, gs + [g]) == SavedPins(AfterSaves(values, gs), PinsAfterSaves(values, pins, gs), g)
    ensures events0 + Announced(gs + [g], false) == events0 + Announced(gs, false) + [GroupEdited(g, false)]
  {
    assert (gs + [g])[..|gs|] == gs;
  }

  /** After a sequence of deletions, each deleted group's data elements hold nothing, and
    * every other name holds what it held. */
  lemma {:induction false} DeletionsClear(values: map<string, DataValue>, gs: seq<UserGroup>)
    ensures forall i :: 0 <= i < |gs| ==> Cleared(AfterDeletions(values, gs), gs[i].id)
    ensures forall n :: OutsideAll(n, gs) ==>
              (n in AfterDeletions(values, gs) <==> n in values) &&
              (n in values ==> AfterDeletions(values, gs)[n] == values[n])
  {
    if gs != [] {
      var init := gs[..|gs| - 1];
      DeletionsClear(values, init);
      forall n | OutsideAll(n, gs)
        ensures OutsideAll(n, init)
      {
        forall i | 0 <= i < |init|
          ensures n != DataName(init[i].id, NAME_SUFFIX) && n != DataName(init[i].id, DATASET_IDS_SUFFIX)
        {
          assert init[i] == gs[i];
        }
      }
      forall i | 0 <= i < |gs|
        ensures Cleared(AfterDeletions(values, gs), gs[i].id)
      {
        if i < |gs| - 1 {
          assert init[i] == gs[i];
        }
      }
    }
  }

  /** After a sequence of saves of groups with distinct IDs, each saved group's data
    * elements mirror it, and every other name holds what it held. */
  lemma {:induction false} SavesMirror(values: map<string, DataValue>, gs: seq<UserGroup>)
    requires DistinctIDs(gs)
    ensures forall i :: 0 <= i < |gs| ==> Mirrored(AfterSaves(values, gs), gs[i])
    ensures forall n :: OutsideAll(n, gs) ==>
              (n in AfterSaves(values, gs) <==> n in values) &&
              (n in values ==> AfterSaves(values, gs)[n] == values[n])
  {
    if gs != [] {
      var init := gs[..|gs| - 1];
      var last := gs[|gs| - 1];
      assert forall i :: 0 <= i < |init| ==> init[i] == gs[i];
      SavesMirror(values, init);
      forall n | OutsideAll(n, gs)
        ensures OutsideAll(n, init)
      {
        forall i | 0 <= i < |init|
          ensures n != DataName(init[i].id, NAME_SUFFIX) && n != DataName(init[i].id, DATASET_IDS_SUFFIX)
        {
          assert init[i] == gs[i];
        }
      }
      forall i | 0 <= i < |gs| - 1
        ensures Mirrored(AfterSaves(values, gs), gs[i])
      {
        assert init[i] == gs[i];
        DistinctGroupNames(gs[i].id.value, last.id.value);
      }
    }
  }

  /** Saving groups none of which has ID `k` leaves `k`'s data elements empty if they were. */
  lemma SavesKeepCleared(values: map<string, DataValue>, gs: seq<UserGroup>, k: string)
    requires DistinctIDs(gs)
    requires forall i :: 0 <= i < |gs| ==> gs[i].id != Some(k)
    requires Cleared(values, Some(k))
    ensures Cleared(AfterSaves(values, gs), Some(k))
  {
    SavesMirror(values, gs);
    forall i | 0 <= i < |gs|
      ensures DataName(Some(k), NAME_SUFFIX) != DataName(gs[i].id, NAME_SUFFIX)
      ensures DataName(Some(k), NAME_SUFFIX) != DataName(gs[i].id, DATASET_IDS_SUFFIX)
      ensures DataName(Some(k), DATASET_IDS_SUFFIX) != DataName(gs[i].id, NAME_SUFFIX)
      ensures DataName(Some(k), DATASET_IDS_SUFFIX) != DataName(gs[i].id, DATASET_IDS_SUFFIX)
    {
      DistinctGroupNames(k, gs[i].id.value);
    }
    assert OutsideAll(DataName(Some(k), NAME_SUFFIX), gs);
    assert OutsideAll(DataName(Some(k), DATASET_IDS_SUFFIX), gs);
  }

  /** The data elements after reloadGroups, whatever order its loops took: those of every
    * group dropped hold nothing, those of every group read that changed mirror it, and
    * every name of no such group holds what it held. */
  lemma ReloadedData(groups: map<string, UserGroup>, read: map<string, UserGroup>, custom: bool,
                     dropped: seq<UserGroup>, saved: seq<UserGroup>, values: map<string, DataValue>)
    requires forall k :: k in groups ==> groups[k].id == Some(k)
    requires forall k :: k in read ==> read[k].id == Some(k)
    requires Enumerates(groups, Removed(groups, read, custom), dropped)
    requires Enumerates(read, Changed(groups, read), saved)
    ensures forall k :: k in Removed(groups, read, custom) ==>
              Cleared(AfterSaves(AfterDeletions(values, dropped), saved), Some(k))
    ensures forall k :: k in Changed(groups, read) ==> Mirrored(AfterSaves(AfterDeletions(values, dropped), saved), read[k])
    ensures forall n :: Outside(n, Removed(groups, read, custom) + Changed(groups, read)) ==>
              (n in AfterSaves(AfterDeletions(values, dropped), saved) <==> n in values) &&
              (n in values ==> AfterSaves(AfterDeletions(values, dropped), saved)[n] == values[n])
  {
    var R, C := Removed(groups, read, custom), Changed(groups, read);
    var mid := AfterDeletions(values, dropped);
    DeletionsClear(values, dropped);
    SavesMirror(mid, saved);
    forall k | k in R
      ensures Cleared(AfterSaves(mid, saved), Some(k))
    {
      var i :| 0 <= i < |dropped| && dropped[i] == groups[k];
      assert Cleared(mid, dropped[i].id);
      forall j | 0 <= j < |saved|
        ensures saved[j].id != Some(k)
      {
        assert saved[j].id.value in read;
      }
      SavesKeepCleared(mid, saved, k);
    }
    forall k | k in C
      ensures Mirrored(AfterSaves(mid, saved), read[k])
    {
      var i :| 0 <= i < |saved| && saved[i] == read[k];
    }
    forall n | Outside(n, R + C)
      ensures OutsideAll(n, dropped) && OutsideAll(n, saved)
    {
      forall i | 0 <= i < |dropped|
        ensures n != DataName(dropped[i].id, NAME_SUFFIX) && n != DataName(dropped[i].id, DATASET_IDS_SUFFIX)
      {
        assert dropped[i].id.value in R + C;
      }
      forall i | 0 <= i < |saved|
        ensures n != DataName(saved[i].id, NAME_SUFFIX) && n != DataName(saved[i].id, DATASET_IDS_SUFFIX)
      {
        assert saved[i].id.value in R + C;
      }
    }
  }

  /** The data elements of a group lie outside every set of other groups' IDs. */
  lemma OwnNamesOutside(k: string, ids: set<string>)
    requires k !in ids
    ensures Outside(DataName(Some(k), NAME_SUFFIX), ids) && Outside(DataName(Some(k), DATASET_IDS_SUFFIX), ids)
  {
    forall j | j in ids
      ensures DataName(Some(k), NAME_SUFFIX) != DataName(Some(j), NAME_SUFFIX)
      ensures DataName(Some(k), NAME_SUFFIX) != DataName(Some(j), DATASET_IDS_SUFFIX)
      ensures DataName(Some(k), DATASET_IDS_SUFFIX) != DataName(Some(j), NAME_SUFFIX)
      ensures DataName(Some(k), DATASET_IDS_SUFFIX) != DataName(Some(j), DATASET_IDS_SUFFIX)
    {
      DistinctGroupNames(k, j);
    }
  }

  /** A reload of one kind into a map holding only groups of the other kind drops nothing
    * and mirrors every group read, keeping the groups already mirrored. */
  lemma ReloadIntoOtherKind(groups: map<string, UserGroup>, read: map<string, UserGroup>, custom: bool,
                            dropped: seq<UserGroup>, saved: seq<UserGroup>,
                            values: map<string, DataValue>, base: map<string, DataValue>)
    requires forall k :: k in groups ==> groups[k].id == Some(k) && groups[k].custom != custom && k !in read
    requires forall k :: k in read ==> read[k].id == Some(k)
    requires Enumerates(groups, Removed(groups, read, custom), dropped)
    requires Enumerates(read, Changed(groups, read), saved)
    requires MirrorsGroups(values, groups, base)
    ensures MirrorsGroups(AfterSaves(AfterDeletions(values, dropped), saved), Reconciled(groups, read, custom), base)
  {
    var D, C := Removed(groups, read, custom), Changed(groups, read);
    ReloadedData(groups, read, custom, dropped, saved, values);
    var after := AfterSaves(AfterDeletions(values, dropped), saved);
    var R := Reconciled(groups, read, custom);
    assert D == {};
    forall k | k in read
      ensures k in C
    {
    }
    forall k | k in groups
      ensures Mirrored(after, groups[k])
    {
      OwnNamesOutside(k, D + C);
    }
    forall n | Outside(n, R.Keys)
      ensures (n in after <==> n in base) && (n in after ==> after[n] == base[n])
    {
      assert Outside(n, D + C);
      assert Outside(n, groups.Keys);
    }
  }

  /** The order in which a HashSet<Boolean> yields its elements: Boolean.FALSE hashes to
    * bucket 5 and Boolean.TRUE to bucket 15 of the default table, so false comes first. */
  function IterationOrder(kinds: set<bool>): (r: seq<bool>)
    ensures forall i :: 0 <= i < |r| ==> r[i] in kinds
    ensures forall b :: b in kinds ==> b in r
    ensures |r| == |kinds|
    ensures forall i, j :: 0 <= i < j < |r| ==> r[i] != r[j]
    ensures false in kinds && true in kinds ==> r == [false, true]
  {
    assert kinds <= {false, true} by {
      forall b | b in kinds
        ensures b in {false, true}
      {
      }
    }
    if false in kinds && true in kinds then
      assert kinds == {false, true};
      [false, true]
    else if false in kinds then
      assert kinds == {false};
      [false]
    else if true in kinds then
      assert kinds == {true};
      [true]
    else
      assert kinds == {};
      []
  }

  /** Whether the write of the file of a kind succeeds. */
  function Succeeds(kind: bool, sharedOk: bool, customOk: bool): bool
  {
    if kind then customOk else sharedOk
  }

  /** After saveFile has run for the kinds in `tried`, starting from the pending kinds
    * `pending` and the written files `before`: the kinds still pending (`now`) are the
    * pending ones whose write did not succeed, and the files written (`w`) are those of the
    * kinds whose write succeeded, holding the groups of that kind. */
  ghost predicate SavedSoFar(pending: set<bool>, before: map<bool, set<UserGroup>>, tried: set<bool>,
                             sharedOk: bool, customOk: bool, now: set<bool>, w: map<bool, set<UserGroup>>,
                             shared: set<UserGroup>, custom: set<UserGroup>)
  {
    (forall k :: k in now <==> k in pending && !(k in tried && Succeeds(k, sharedOk, customOk))) &&
    (forall k :: k in w <==> k in before || (k in tried && Succeeds(k, sharedOk, customOk))) &&
    (forall k :: k in w ==>
      w[k] == if k in tried && Succeeds(k, sharedOk, customOk) then (if k then custom else shared) else before[k])
  }

  /** One more saveFile, for a pending kind, keeps SavedSoFar with that kind tried. */
  lemma SavedSoFarStep(pending: set<bool>, before: map<bool, set<UserGroup>>, tried: set<bool>,
                       sharedOk: bool, customOk: bool, now: set<bool>, w: map<bool, set<UserGroup>>,
                       shared: set<UserGroup>, custom: set<UserGroup>, kind: bool, now': set<bool>, w': map<bool, set<UserGroup>>)
    requires SavedSoFar(pending, before, tried, sharedOk, customOk, now, w, shared, custom)
    requires kind in pending
    requires forall k :: k in now' <==> (k in now || k == kind) && !(k == kind && Succeeds(kind, sharedOk, customOk))
    requires w' == if Succeeds(kind, sharedOk, customOk) then w[kind := if kind then custom else shared] else w
    ensures SavedSoFar(pending, before, tried + {kind}, sharedOk, customOk, now', w', shared, custom)
  {
  }

  /** A set of kinds holding neither kind is empty. */
  lemma EmptyKinds(kinds: set<bool>)
    requires false !in kinds && true !in kinds
    ensures kinds == {}
  {
    forall b: bool
      ensures b !in kinds
    {
    }
  }

  /** The two data elements of different groups have different names. */
  lemma DistinctGroupNames(k1: string, k2: string)
    requires k1 != k2
    ensures DataName(Some(k1), NAME_SUFFIX) != DataName(Some(k2), NAME_SUFFIX)
    ensures DataName(Some(k1), NAME_SUFFIX) != DataName(Some(k2), DATASET_IDS_SUFFIX)
    ensures DataName(Some(k1), DATASET_IDS_SUFFIX) != DataName(Some(k2), NAME_SUFFIX)
    ensures DataName(Some(k1), DATASET_IDS_SUFFIX) != DataName(Some(k2), DATASET_IDS_SUFFIX)
  {
    if DataName(Some(k1), NAME_SUFFIX) == DataName(Some(k2), NAME_SUFFIX) {
      DataNamesDiffer(k1, NAME_SUFFIX, k2, NAME_SUFFIX);
    }
    if DataName(Some(k1), NAME_SUFFIX) == DataName(Some(k2), DATASET_IDS_SUFFIX) {
      DataNamesDiffer(k1, NAME_SUFFIX, k2, DATASET_IDS_SUFFIX);
    }
    if DataName(Some(k1), DATASET_IDS_SUFFIX) == DataName(Some(k2), NAME_SUFFIX) {
      DataNamesDiffer(k1, DATASET_IDS_SUFFIX, k2, NAME_SUFFIX);
    }
    if DataName(Some(k1), DATASET_IDS_SUFFIX) == DataName(Some(k2), DATASET_IDS_SUFFIX) {
      DataNamesDiffer(k1, DATASET_IDS_SUFFIX, k2, DATASET_IDS_SUFFIX);
    }
  }

  /** The user group manager. */
  class UserGroupManager {
    /** UserGroup.EVERYONE_ID, the ID of the pseudo-group of everyone. */
    const everyoneID: string
    /** Why shared groups cannot be changed, if they cannot. */
    var readOnlyCode: Option<string>
    /** The kinds (custom or not) of the files still to be written; none in a personal
      * dashboard. */
    var needsSave: Option<set<bool>>
    var groups: map<string, UserGroup>
    /** The repository's values and pinned names. */
    var dataValues: map<string, DataValue>
    var pinned: set<string>
    /** The events fired to the edit listeners, oldest first. */
    var events: seq<GroupEvent>
    /** The groups last written to the file of each kind. */
    var written: map<bool, set<UserGroup>>

    /** Every group is filed under its own ID. */
    ghost predicate KeysMatch()
      reads this`groups
    {
      forall k :: k in groups ==> groups[k].id == Some(k)
    }

    constructor (everyoneID: string, readOnly: bool)
      ensures this.everyoneID == everyoneID
      ensures readOnlyCode == if readOnly then Some(READ_ONLY_CODE) else None
      ensures needsSave.None? && groups == map[] && dataValues == map[] && pinned == {}
      ensures events == [] && written == map[]
      ensures KeysMatch()
    {
      this.everyoneID := everyoneID;
      readOnlyCode := if readOnly then Some(READ_ONLY_CODE) else None;
      needsSave := None;
      groups := map[];
      dataValues := map[];
      pinned := {};
      events := [];
      written := map[];
    }

    /** init: a personal dashboard has no groups and allows no changes; a team dashboard
      * loads the shared and then the custom groups and starts with nothing to save. */
    method Init(teamMode: bool, sharedFile: Option<seq<GroupXml>>, customFile: Option<seq<GroupXml>>)
      modifies this`groups, this`dataValues, this`pinned, this`events, this`needsSave
      ensures KeysMatch()
      ensures !teamMode ==> groups == map[] && needsSave == old(needsSave) && dataValues == old(dataValues) &&
                            pinned == old(pinned) && events == old(events)
      ensures teamMode ==> needsSave == Some({})
      ensures teamMode ==> forall k :: k in groups <==>
                (sharedFile.Some? && k in ReadGroups(sharedFile.value, false)) ||
                (customFile.Some? && k in ReadGroups(customFile.value, true))
      ensures teamMode && sharedFile.Some? ==>
                forall k :: k in ReadGroups(sharedFile.value, false) ==> groups[k] == ReadGroups(sharedFile.value, false)[k]
      ensures teamMode && customFile.Some? ==>
                forall k :: k in ReadGroups(customFile.value, true) ==> groups[k] == ReadGroups(customFile.value, true)[k]
      ensures teamMode ==> MirrorsGroups(dataValues, groups, old(dataValues))
    {
      groups := map[];
      if !teamMode {
        return;
      }
      ghost var base := dataValues;
      ghost var dropped: seq<UserGroup>, saved: seq<UserGroup>;
      dropped, saved := ReloadGroups(false, sharedFile);
      if sharedFile.Some? {
        ReloadIntoOtherKind(map[], ReadGroups(sharedFile.value, false), false, dropped, saved, base, base);
      }
      ghost var afterShared, valuesShared := groups, dataValues;
      assert MirrorsGroups(valuesShared, afterShared, base);
      dropped, saved := ReloadGroups(true, customFile);
      if customFile.Some? {
        ReloadIntoOtherKind(afterShared, ReadGroups(customFile.value, true), true, dropped, saved, valuesShared, base);
      }
      needsSave := Some({});
    }

    /** saveDataElement: the value is put only when it differs from the one stored (null
      * being equal only to null), and a name that held nothing before is pinned. */
    method SaveDataElement(name: string, value: Option<DataValue>)
      modifies this`dataValues, this`pinned
      ensures dataValues == Put(old(dataValues), name, value)
      ensures pinned == if name !in old(dataValues) && value.Some? then old(pinned) + {name} else old(pinned)
    {
      var oldValue := if name in dataValues then Some(dataValues[name]) else None;
      if oldValue != value {
        dataValues := Put(dataValues, name, value);
        if oldValue.None? {
          pinned := pinned + {name};
        }
      } else {
        assert dataValues == Put(dataValues, name, value);
      }
    }

    /** groupWasSaved: the group's data elements take its text and dataset IDs (those that
      * held nothing are pinned), and the listeners hear of the save. */
    method GroupWasSaved(g: UserGroup)
      modifies this`dataValues, this`pinned, this`events
      ensures dataValues == SavedValues(old(dataValues), g)
      ensures pinned == SavedPins(old(dataValues), old(pinned), g)
      ensures events == old(events) + [GroupEdited(g, false)]
    {
      OwnNamesDiffer(g.id);
      SaveDataElement(DataName(g.id, NAME_SUFFIX), Some(StringValue(g.text)));
      SaveDataElement(DataName(g.id, DATASET_IDS_SUFFIX), Some(DatasetIDsValue(g.datasetIDs)));
      events := events + [GroupEdited(g, false)];
    }

    /** groupWasDeleted: the group's data elements are emptied, and the listeners hear of
      * the deletion. */
    method GroupWasDeleted(g: UserGroup)
      modifies this`dataValues, this`pinned, this`events
      ensures dataValues == DeletedValues(old(dataValues), g)
      ensures pinned == old(pinned)
      ensures events == old(events) + [GroupEdited(g, true)]
    {
      SaveDataElement(DataName(g.id, NAME_SUFFIX), None);
      SaveDataElement(DataName(g.id, DATASET_IDS_SUFFIX), None);
      events := events + [GroupEdited(g, true)];
      assert dataValues == DeletedValues(old(dataValues), g);
    }

    /** The groups of one kind, as saveFile writes them. */
    function GroupsOfKind(custom: bool): (r: set<UserGroup>)
      reads this`groups
      ensures forall g :: g in r <==> g in groups.Values && g.custom == custom
    {
      set g | g in groups.Values && g.custom == custom
    }

    /** saveFile: the kind is noted as needing a save, the groups of that kind are written,
      * and the note is dropped only when the write succeeds. */
    method SaveFile(custom: bool, writeSucceeds: bool)
      requires needsSave.Some?
      modifies this`needsSave, this`written
      ensures needsSave.Some?
      ensures forall k :: k in needsSave.value <==> (k in old(needsSave.value) || k == custom) && !(k == custom && writeSucceeds)
      ensures writeSucceeds ==> written == old(written)[custom := GroupsOfKind(custom)]
      ensures !writeSucceeds ==> written == old(written)
    {
      needsSave := Some(needsSave.value + {custom});
      if writeSucceeds {
        written := written[custom := GroupsOfKind(custom)];
        needsSave := Some(needsSave.value - {custom});
      }
    }

    /** The refusal prepareForModification gives for `g`, if any. */
    function ModificationError(g: UserGroup): (r: Option<GroupError>)
      reads this`needsSave, this`readOnlyCode
      ensures r == Some(ModificationNotAllowed) <==> needsSave.None?
      ensures r == Some(InvalidGroupID) <==>
                needsSave.Some? &&
                ((g.id.Some? && StartsWith(g.id.value, CUSTOM_ID_PREFIX) != g.custom) || g.id == Some(everyoneID))
      ensures r.Some? && r.value.SharedGroupsReadOnly? <==>
                needsSave.Some? && !g.custom && readOnlyCode.Some? && g.id != Some(everyoneID) &&
                (g.id.Some? ==> StartsWith(g.id.value, CUSTOM_ID_PREFIX) == g.custom)
    {
      if needsSave.None? then Some(ModificationNotAllowed)
      else if (g.id.Some? && StartsWith(g.id.value, CUSTOM_ID_PREFIX) != g.custom) || g.id == Some(everyoneID) then
        Some(InvalidGroupID)
      else if !g.custom && readOnlyCode.Some? then Some(SharedGroupsReadOnly(readOnlyCode.value))
      else None
    }

    /** prepareForModification: refuses a change in a personal dashboard, of a group whose
      * ID disagrees with its kind or is that of everyone, and of a shared group in
      * read-only mode; before a custom group changes, the custom file is read again. */
    method PrepareForModification(g: UserGroup, customFile: Option<seq<GroupXml>>) returns (err: Option<GroupError>)
      requires KeysMatch()
      modifies this`groups, this`dataValues, this`pinned, this`events
      ensures KeysMatch()
      ensures err == old(ModificationError(g))
      ensures err.Some? || !g.custom || customFile.None? ==>
                groups == old(groups) && dataValues == old(dataValues) && pinned == old(pinned) && events == old(events)
      ensures err.None? ==> groups == Prepared(old(groups), g, customFile)
    {
      err := ModificationError(g);
      if err.None? && g.custom {
        ghost var dropped: seq<UserGroup>, saved: seq<UserGroup>;
        dropped, saved := ReloadGroups(true, customFile);
      }
    }

    /** saveGroup: after prepareForModification agrees, a new group gets a generated ID, the
      * group is filed under its ID, the file of its kind is written, its data elements are
      * updated and the listeners hear of the save. */
    method SaveGroup(g: UserGroup, customFile: Option<seq<GroupXml>>, random: nat, millis: nat, writeSucceeds: bool)
      returns (err: Option<GroupError>, saved: UserGroup)
      requires KeysMatch()
      modifies this`groups, this`dataValues, this`pinned, this`events, this`needsSave, this`written
      ensures KeysMatch()
      ensures err == old(ModificationError(g))
      ensures err.Some? ==> groups == old(groups) && events == old(events) && needsSave == old(needsSave) && written == old(written)
      ensures err.Some? ==> dataValues == old(dataValues) && pinned == old(pinned)
      ensures err.None? ==> saved.id.Some? && groups == Prepared(old(groups), g, customFile)[saved.id.value := saved]
      ensures err.None? ==>
                needsSave.Some? &&
                (forall k :: k in needsSave.value <==> (k in old(needsSave).value || k == g.custom) && !(k == g.custom && writeSucceeds))
      ensures err.None? && writeSucceeds ==> written == old(written)[g.custom := GroupsOfKind(g.custom)]
      ensures err.None? && !writeSucceeds ==> written == old(written)
      ensures err.None? ==>
                saved == g.(id := Some(if g.id.Some? then g.id.value else GenerateUniqueID(g.custom, random, millis))) &&
                saved.id.value in groups && groups[saved.id.value] == saved && Mirrored(dataValues, saved) &&
                |events| > 0 && events[|events| - 1] == GroupEdited(saved, false) &&
                needsSave.Some? && (g.custom in needsSave.value <==> !writeSucceeds) &&
                (writeSucceeds ==> g.custom in written && saved in written[g.custom])
    {
      saved := g;
      err := PrepareForModification(g, customFile);
      if err.Some? {
        return;
      }
      saved := g.(id := Some(if g.id.Some? then g.id.value else GenerateUniqueID(g.custom, random, millis)));
      StoreGroup(saved, writeSucceeds);
    }

    /** The part of saveGroup after the group has its ID: file it, write its file, mirror
      * it in its data elements and announce it. */
    method StoreGroup(saved: UserGroup, writeSucceeds: bool)
      requires saved.id.Some? && needsSave.Some? && KeysMatch()
      modifies this`groups, this`dataValues, this`pinned, this`events, this`needsSave, this`written
      ensures KeysMatch()
      ensures groups == old(groups)[saved.id.value := saved]
      ensures Mirrored(dataValues, saved)
      ensures events == old(events) + [GroupEdited(saved, false)]
      ensures needsSave.Some? && (saved.custom in needsSave.value <==> !writeSucceeds)
      ensures forall k :: k in needsSave.value <==> (k in old(needsSave).value || k == saved.custom) && !(k == saved.custom && writeSucceeds)
      ensures writeSucceeds ==> written == old(written)[saved.custom := GroupsOfKind(saved.custom)]
      ensures !writeSucceeds ==> written == old(written)
      ensures writeSucceeds ==> saved.custom in written && saved in written[saved.custom]
    {
      groups := groups[saved.id.value := saved];
      SaveFile(saved.custom, writeSucceeds);
      GroupWasSaved(saved);
    }

    /** deleteGroup: after prepareForModification agrees, a group that is in the map is
      * removed, the file of its kind is written, its data elements are emptied and the
      * listeners hear of the deletion; a group that is not in the map changes nothing
      * further. */
    method DeleteGroup(g: UserGroup, customFile: Option<seq<GroupXml>>, writeSucceeds: bool)
      returns (err: Option<GroupError>)
      requires KeysMatch()
      modifies this`groups, this`dataValues, this`pinned, this`events, this`needsSave, this`written
      ensures KeysMatch()
      ensures err == old(ModificationError(g))
      ensures err.Some? ==> groups == old(groups) && events == old(events) && needsSave == old(needsSave) && written == old(written)
      ensures err.Some? ==> dataValues == old(dataValues) && pinned == old(pinned)
      ensures err.None? && (g.id.None? || g.id.value !in old(groups)) && (!g.custom || customFile.None?) ==>
                groups == old(groups) && events == old(events) && needsSave == old(needsSave) && written == old(written)
      ensures err.None? && (g.id.None? || g.id.value !in Prepared(old(groups), g, customFile)) ==>
                groups == Prepared(old(groups), g, customFile) && needsSave == old(needsSave) && written == old(written)
      ensures err.None? && g.id.Some? ==> g.id.value !in groups
      ensures err.None? && g.id.Some? && g.id.value in Prepared(old(groups), g, customFile) ==>
                groups == Prepared(old(groups), g, customFile) - {g.id.value} && Cleared(dataValues, g.id) &&
                |events| > 0 && events[|events| - 1] == GroupEdited(g, true) &&
                needsSave.Some? && (forall k :: k in needsSave.value <==> (k in old(needsSave).value || k == g.custom) && !(k == g.custom && writeSucceeds)) &&
                (writeSucceeds ==> written == old(written)[g.custom := GroupsOfKind(g.custom)]) &&
                (!writeSucceeds ==> written == old(written))
      ensures err.None? && g.id.Some? && g.id.value in old(groups) && (!g.custom || customFile.None?) ==>
                groups == old(groups) - {g.id.value} && Cleared(dataValues, g.id) &&
                events == old(events) + [GroupEdited(g, true)] &&
                needsSave.Some? && (g.custom in needsSave.value <==> !writeSucceeds)
    {
      err := PrepareForModification(g, customFile);
      if err.Some? {
        return;
      }
      if g.id.Some? && g.id.value in groups {
        groups := groups - {g.id.value};
        SaveFile(g.custom, writeSucceeds);
        GroupWasDeleted(g);
      }
    }

    /** reloadGroups: when the file of the kind exists, the groups of that kind it no longer
      * holds are dropped and announced as deleted, then every group it holds is put in the
      * map and those that changed announced as saved; the groups of the other kind stay.
      * `dropped` and `saved` are the orders the two loops took over their hash maps. */
    method ReloadGroups(custom: bool, file: Option<seq<GroupXml>>) returns (ghost dropped: seq<UserGroup>, ghost saved: seq<UserGroup>)
      requires KeysMatch()
      modifies this`groups, this`dataValues, this`pinned, this`events
      ensures KeysMatch()
      ensures file.None? ==>
                dropped == [] && saved == [] &&
                groups == old(groups) && dataValues == old(dataValues) && pinned == old(pinned) && events == old(events)
      ensures file.Some? ==>
                var read := ReadGroups(file.value, custom);
                groups == Reconciled(old(groups), read, custom) &&
                Enumerates(old(groups), Removed(old(groups), read, custom), dropped) &&
                Enumerates(read, Changed(old(groups), read), saved) &&
                dataValues == AfterSaves(AfterDeletions(old(dataValues), dropped), saved) &&
                pinned == PinsAfterSaves(AfterDeletions(old(dataValues), dropped), old(pinned), saved) &&
                events == old(events) + Announced(dropped, true) + Announced(saved, false)
    {
      dropped, saved := [], [];
      if file.None? {
        return;
      }
      var read := ReadFile(file.value, custom);
      ghost var G := groups;
      dropped := DropMissing(custom, read);
      assert Changed(groups, read) == Changed(G, read);
      saved := PutRead(read);
    }

    /** The first loop of reloadGroups: every group of the file's kind whose ID the file
      * does not hold is removed from the map and its removal announced. */
    method DropMissing(custom: bool, read: map<string, UserGroup>) returns (ghost dropped: seq<UserGroup>)
      requires KeysMatch()
      modifies this`groups, this`dataValues, this`pinned, this`events
      ensures KeysMatch()
      ensures groups == old(groups) - Removed(old(groups), read, custom)
      ensures Enumerates(old(groups), Removed(old(groups), read, custom), dropped)
      ensures dataValues == AfterDeletions(old(dataValues), dropped)
      ensures pinned == old(pinned)
      ensures events == old(events) + Announced(dropped, true)
    {
      var snapshot := groups;
      ghost var R := Removed(snapshot, read, custom);
      dropped := [];
      var pending := snapshot.Keys;
      while pending != {}
        invariant pending <= snapshot.Keys
        invariant groups == snapshot - (R - pending)
        invariant Enumerates(snapshot, R - pending, dropped)
        invariant dataValues == AfterDeletions(old(dataValues), dropped)
        invariant pinned == old(pinned)
        invariant events == old(events) + Announced(dropped, true)
        decreases pending
      {
        var k :| k in pending;
        var g := snapshot[k];
        if g.custom == custom && k !in read {
          assert (R - pending) + {k} == R - (pending - {k});
          dropped := DropOne(snapshot, k, R - pending, dropped, old(dataValues), old(events));
        } else {
          assert R - pending == R - (pending - {k});
        }
        pending := pending - {k};
      }
    }

    /** One step of the first loop of reloadGroups: the group filed under `k` is dropped. */
    method DropOne(snapshot: map<string, UserGroup>, k: string, ghost done: set<string>, ghost dropped: seq<UserGroup>,
                   ghost values0: map<string, DataValue>, ghost events0: seq<GroupEvent>)
      returns (ghost dropped': seq<UserGroup>)
      requires k in snapshot && snapshot[k].id == Some(k) && k !in done
      requires groups == snapshot - done
      requires Enumerates(snapshot, done, dropped)
      requires dataValues == AfterDeletions(values0, dropped)
      requires events == events0 + Announced(dropped, true)
      modifies this`groups, this`dataValues, this`pinned, this`events
      ensures groups == snapshot - (done + {k})
      ensures Enumerates(snapshot, done + {k}, dropped')
      ensures dataValues == AfterDeletions(values0, dropped')
      ensures events == events0 + Announced(dropped', true)
      ensures pinned == old(pinned)
    {
      var g := snapshot[k];
      groups := groups - {k};
      assert groups == snapshot - (done + {k});
      GroupWasDeleted(g);
      EnumeratesStep(snapshot, done, dropped, k);
      DeletionStep(values0, events0, dropped, g);
      dropped' := dropped + [g];
    }

    /** One step of the second loop of reloadGroups: the group read with ID `k` is put,
      * and announced as saved when it differs from the group it replaces. */
    method PutOne(ghost G: map<string, UserGroup>, read: map<string, UserGroup>, k: string, ghost pending: set<string>,
                  ghost saved: seq<UserGroup>, ghost values0: map<string, DataValue>, ghost pins0: set<string>,
                  ghost events0: seq<GroupEvent>)
      returns (ghost saved': seq<UserGroup>)
      requires k in read && read[k].id == Some(k) && k in pending
      requires groups == G + (read - pending)
      requires Enumerates(read, Changed(G, read) - pending, saved)
      requires dataValues == AfterSaves(values0, saved)
      requires pinned == PinsAfterSaves(values0, pins0, saved)
      requires events == events0 + Announced(saved, false)
      modifies this`groups, this`dataValues, this`pinned, this`events
      ensures groups == G + (read - (pending - {k}))
      ensures Enumerates(read, Changed(G, read) - (pending - {k}), saved')
      ensures dataValues == AfterSaves(values0, saved')
      ensures pinned == PinsAfterSaves(values0, pins0, saved')
      ensures events == events0 + Announced(saved', false)
    {
      var g := read[k];
      var oldGroup := if k in groups then Some(groups[k]) else None;
      PutStep(G, read, pending, saved, k);
      groups := groups[k := g];
      if oldGroup != Some(g) {
        saved' := SaveNext(g, saved, values0, pins0, events0);
      } else {
        saved' := saved;
      }
    }

    /** groupWasSaved for the next group of a sequence of saves. */
    method SaveNext(g: UserGroup, ghost saved: seq<UserGroup>, ghost values0: map<string, DataValue>,
                    ghost pins0: set<string>, ghost events0: seq<GroupEvent>)
      returns (ghost saved': seq<UserGroup>)
      requires dataValues == AfterSaves(values0, saved)
      requires pinned == PinsAfterSaves(values0, pins0, saved)
      requires events == events0 + Announced(saved, false)
      modifies this`dataValues, this`pinned, this`events
      ensures saved' == saved + [g]
      ensures dataValues == AfterSaves(values0, saved')
      ensures pinned == PinsAfterSaves(values0, pins0, saved')
      ensures events == events0 + Announced(saved', false)
    {
      GroupWasSaved(g);
      SaveStep(values0, pins0, events0, saved, g);
      saved' := saved + [g];
    }

    /** The second loop of reloadGroups: every group read is put in the map, and one that
      * differs from the group it replaces (or replaces none) is announced as saved. */
    method PutRead(read: map<string, UserGroup>) returns (ghost saved: seq<UserGroup>)
      requires forall k :: k in read ==> read[k].id == Some(k)
      requires KeysMatch()
      modifies this`groups, this`dataValues, this`pinned, this`events
      ensures KeysMatch()
      ensures groups == old(groups) + read
      ensures Enumerates(read, Changed(old(groups), read), saved)
      ensures dataValues == AfterSaves(old(dataValues), saved)
      ensures pinned == PinsAfterSaves(old(dataValues), old(pinned), saved)
      ensures events == old(events) + Announced(saved, false)
    {
      ghost var G := groups;
      ghost var C := Changed(G, read);
      saved := [];
      var pending := read.Keys;
      while pending != {}
        invariant pending <= read.Keys
        invariant groups == G + (read - pending)
        invariant Enumerates(read, C - pending, saved)
        invariant dataValues == AfterSaves(old(dataValues), saved)
        invariant pinned == PinsAfterSaves(old(dataValues), old(pinned), saved)
        invariant events == old(events) + Announced(saved, false)
        decreases pending
      {
        var k :| k in pending;
        saved := PutOne(G, read, k, pending, saved, old(dataValues), old(pinned), old(events));
        pending := pending - {k};
      }
      assert read - {} == read;
    }

    /** saveAll as written: it walks needsSave itself while saveFile removes each kind it
      * writes, so when both kinds are pending and the shared file (which comes first) is
      * written, the walk fails with a ConcurrentModificationException before the custom
      * file is tried. */
    method SaveAllAsWritten(sharedWriteSucceeds: bool, customWriteSucceeds: bool)
      returns (r: Result<bool, SaveAllFailure>)
      modifies this`needsSave, this`written
      ensures old(needsSave).None? ==> r == Ok(true) && needsSave == old(needsSave) && written == old(written)
      ensures r.Err? <==> old(needsSave) == Some({false, true}) && sharedWriteSucceeds
      ensures r.Err? ==> needsSave == Some({true}) && written == old(written)[false := GroupsOfKind(false)]
      ensures old(needsSave).Some? && r.Ok? ==>
                Attempted(old(needsSave.value), old(written), old(needsSave.value), sharedWriteSucceeds, customWriteSucceeds) &&
                r == Ok(needsSave.value == {})
    {
      if needsSave.None? || needsSave.value == {} {
        return Ok(true);
      }
      var order := IterationOrder(needsSave.value);
      var i := 0;
      ghost var tried: set<bool> := {};
      while i < |order|
        invariant 0 <= i <= |order|
        invariant forall j :: 0 <= j < i ==> order[j] in tried
        invariant tried <= old(needsSave.value) && |tried| <= i
        invariant Attempted(old(needsSave.value), old(written), tried, sharedWriteSucceeds, customWriteSucceeds)
        invariant old(needsSave.value) == {false, true} && sharedWriteSucceeds ==> i == 0
      {
        var kind := order[i];
        var ok := if kind then customWriteSucceeds else sharedWriteSucceeds;
        ghost var now, w, tried0 := needsSave.value, written, tried;
        SaveFile(kind, ok);
        SavedSoFarStep(old(needsSave.value), old(written), tried, sharedWriteSucceeds, customWriteSucceeds, now, w,
                       GroupsOfKind(false), GroupsOfKind(true), kind, needsSave.value, written);
        tried := tried + {kind};
        if ok && i + 1 < |order| {
          assert old(needsSave.value) == {false, true} && order == [false, true];
          assert i == 0 && kind == false;
          assert tried0 == {} && tried == {false};
          assert needsSave.value == {true} by {
            forall b: bool
              ensures b in needsSave.value <==> b in {true}
            {
            }
          }
          assert written == old(written)[false := GroupsOfKind(false)] by {
            forall b: bool
              ensures b in written <==> b in old(written)[false := GroupsOfKind(false)]
              ensures b in written ==> written[b] == old(written)[false := GroupsOfKind(false)][b]
            {
            }
          }
          return Err(ConcurrentModification);
        }
        i := i + 1;
      }
      assert tried == old(needsSave.value);
      r := Ok(needsSave.value == {});
    }

    /** saveAll walking a copy of needsSave: every pending kind is written, and the result
      * says whether nothing is left to save. */
    method SaveAll(sharedWriteSucceeds: bool, customWriteSucceeds: bool) returns (allSaved: bool)
      modifies this`needsSave, this`written
      ensures old(needsSave).None? ==> allSaved && needsSave == old(needsSave) && written == old(written)
      ensures old(needsSave).Some? ==>
                Attempted(old(needsSave.value), old(written), old(needsSave.value), sharedWriteSucceeds, customWriteSucceeds) &&
                allSaved == (needsSave.value == {})
      ensures allSaved <==> forall kind :: kind in old(needsSave).GetOr({}) ==>
                                            (if kind then customWriteSucceeds else sharedWriteSucceeds)
    {
      if needsSave.None? || needsSave.value == {} {
        return true;
      }
      var order := IterationOrder(needsSave.value);
      var i := 0;
      ghost var tried: set<bool> := {};
      while i < |order|
        invariant 0 <= i <= |order|
        invariant forall j :: 0 <= j < i ==> order[j] in tried
        invariant tried <= old(needsSave.value) && |tried| <= i
        invariant Attempted(old(needsSave.value), old(written), tried, sharedWriteSucceeds, customWriteSucceeds)
      {
        var kind := order[i];
        ghost var now, w := needsSave.value, written;
        SaveFile(kind, if kind then customWriteSucceeds else sharedWriteSucceeds);
        SavedSoFarStep(old(needsSave.value), old(written), tried, sharedWriteSucceeds, customWriteSucceeds, now, w,
                       GroupsOfKind(false), GroupsOfKind(true), kind, needsSave.value, written);
        tried := tried + {kind};
        i := i + 1;
      }
      assert tried == old(needsSave.value);
      allSaved := needsSave.value == {};
      assert old(needsSave).GetOr({}) == old(needsSave.value);
      if needsSave.value != {} {
        var k := false !in needsSave.value;
        assert k in needsSave.value by {
          if k && true !in needsSave.value {
            EmptyKinds(needsSave.value);
          }
        }
        assert k in old(needsSave.value) && !(if k then customWriteSucceeds else sharedWriteSucceeds);
      }
    }

    /** The files of the kinds in `tried` have been written to (and those kinds left the
      * pending set) exactly when their write succeeded; every other file and pending kind
      * is as it was. */
    ghost predicate Attempted(pending: set<bool>, before: map<bool, set<UserGroup>>, tried: set<bool>,
                              sharedOk: bool, customOk: bool)
      reads this`needsSave, this`written, this`groups
    {
      needsSave.Some? &&
      SavedSoFar(pending, before, tried, sharedOk, customOk, needsSave.value, written, GroupsOfKind(false), GroupsOfKind(true))
    }
  }
}
