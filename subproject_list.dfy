/**
 * The subproject list of a master project. Subprojects live in numbered slots of the data
 * repository: slot n holds a short name and a hierarchy path under the slot number text
 * `GetNum(n)` ("00", "01", ..., "10", ...). The list is read by scanning slots upwards until
 * five empty slots have been seen; adding takes the first slot without a short name, and
 * removing rewrites the remaining subprojects into slots 00, 01, ... and clears the next five.
 *
 * The two repository values of each slot are the maps `shortNames` and `paths` from slot
 * number text to value; a missing key is a missing (null) value. Recomputing the dependent
 * schedule and settings and the HTML pages are not part of this model.
 */
module SubprojectLists {
  import opened Wrappers
  import opened Strings

  // ----- slot numbers -----

  /** getNum: the decimal text of n, padded with one "0" when it has one digit. */
  function GetNum(n: nat): (r: string)
    ensures n < 10 ==> r == "0" + NatToString(n)
    ensures n >= 10 ==> r == NatToString(n)
    ensures |r| >= 2
  {
    var num := NatToString(n);
    if |num| == 1 then "0" + num else num
  }

  lemma {:induction false} NatToStringNoLeadingZero(n: nat)
    requires n >= 1
    ensures NatToString(n)[0] != '0'
    decreases n
  {
    if n < 10 {
      if DigitChar(n) == '0' {
        DigitCharInjective(n, 0);
      }
    } else {
      NatToStringNoLeadingZero(n / 10);
      assert NatToString(n)[0] == NatToString(n / 10)[0];
    }
  }

  /** Different slots have different numbers. */
  lemma GetNumInjective(a: nat, b: nat)
    requires GetNum(a) == GetNum(b)
    ensures a == b
  {
    if a < 10 && b < 10 {
      assert GetNum(a)[1..] == NatToString(a) && GetNum(b)[1..] == NatToString(b);
      NatToStringInjective(a, b);
    } else if a >= 10 && b >= 10 {
      NatToStringInjective(a, b);
    } else if a < 10 {
      NatToStringNoLeadingZero(b);
    } else {
      NatToStringNoLeadingZero(a);
    }
  }

  /** The numbers of the slots below n. */
  function SlotsBelow(n: nat): set<string>
  {
    set j: nat | j < n :: GetNum(j)
  }

  lemma SlotsBelowSnoc(n: nat)
    ensures SlotsBelow(n + 1) == SlotsBelow(n) + {GetNum(n)}
    ensures GetNum(n) !in SlotsBelow(n)
  {
    if GetNum(n) in SlotsBelow(n) {
      var j: nat :| j < n && GetNum(j) == GetNum(n);
      GetNumInjective(j, n);
    }
  }

  /** A slot holding a key of `keys` leaves fewer keys above the slots scanned so far. */
  lemma SlotsBelowStep(keys: set<string>, n: nat)
    requires GetNum(n) in keys
    ensures |keys - SlotsBelow(n + 1)| < |keys - SlotsBelow(n)|
  {
    SlotsBelowSnoc(n);
    assert keys - SlotsBelow(n + 1) == (keys - SlotsBelow(n)) - {GetNum(n)};
  }

  // ----- values and validation -----

  predicate HasValue(s: Option<string>)
  {
    s.Some? && |s.value| > 0
  }

  /** getValue: the value of an element, missing when there is no element. */
  function Lookup<K>(m: map<K, Option<string>>, k: K): Option<string>
  {
    if k in m then m[k] else None
  }

  datatype Subproject = Subproject(num: string, shortName: string, path: Option<string>)

  const NoNameError := "You must enter a short name for the subproject."
  const NameCharsError := "The short name for the subproject can only contain letters."
  const NameTakenError := "That name has already been given to another subproject."
  const NoPathError := "You must choose a subproject."
  const PathTakenError := "That subproject has already been added to this master project."

  predicate IsNameChar(c: char)
  {
    'a' <= c <= 'z' || 'A' <= c <= 'Z' || c == ' '
  }

  /** The pattern [a-zA-Z ]+ matches all of `s`. */
  predicate OkNameChars(s: string)
  {
    |s| > 0 && forall i :: 0 <= i < |s| ==> IsNameChar(s[i])
  }

  /** validateShortName: a name is required, made of letters and spaces, and held by no
    * subproject in another slot than `num`. */
  function ValidateShortName(num: Option<string>, shortName: Option<string>, subs: seq<Subproject>): (r: Option<string>)
    ensures r.None? <==>
              shortName.Some? && Trim(shortName.value) != "" && OkNameChars(shortName.value) &&
              forall i :: 0 <= i < |subs| && subs[i].shortName == shortName.value ==> Some(subs[i].num) == num
    ensures r.Some? ==> r.value == NoNameError || r.value == NameCharsError || r.value == NameTakenError
    ensures r == Some(NoNameError) <==> shortName.None? || Trim(shortName.value) == ""
  {
    if shortName.None? || |Trim(shortName.value)| == 0 then Some(NoNameError)
    else if !OkNameChars(shortName.value) then Some(NameCharsError)
    else if exists i :: 0 <= i < |subs| && subs[i].shortName == shortName.value && Some(subs[i].num) != num then
      Some(NameTakenError)
    else None
  }

  /** validatePath: a path is required, used by no subproject in another slot than `num`. */
  function ValidatePath(num: Option<string>, path: Option<string>, subs: seq<Subproject>): (r: Option<string>)
    ensures r.None? <==>
              path.Some? && Trim(path.value) != "" &&
              forall i :: 0 <= i < |subs| && subs[i].path == path ==> Some(subs[i].num) == num
    ensures r.Some? ==> r.value == NoPathError || r.value == PathTakenError
  {
    if path.None? || |Trim(path.value)| == 0 then Some(NoPathError)
    else if exists i :: 0 <= i < |subs| && subs[i].path == path && Some(subs[i].num) != num then
      Some(PathTakenError)
    else None
  }

  /** The name check does not see the trim that adding applies afterwards: "A " passes next
    * to an existing "A", and is then stored as "A". */
  lemma AddAcceptsTakenName()
    ensures ValidateShortName(None, Some("A "), [Subproject("00", "A", Some("p"))]).None?
    ensures Trim("A ") == "A"
  {
    AcceptedExample([Subproject("00", "A", Some("p"))]);
    TrimExample();
  }

  lemma AcceptedExample(subs: seq<Subproject>)
    requires subs == [Subproject("00", "A", Some("p"))]
    ensures ValidateShortName(None, Some("A "), subs).None?
  {
    var name := "A ";
    TrimExample();
    assert OkNameChars(name) by {
      assert |name| == 2 && IsNameChar(name[0]) && IsNameChar(name[1]);
    }
    assert |subs[0].shortName| == 1 && |name| == 2;
    UnusedNameAccepted(name, subs);
  }

  /** A non-blank name of allowed characters that no subproject uses passes the check. */
  lemma UnusedNameAccepted(name: string, subs: seq<Subproject>)
    requires Trim(name) != "" && OkNameChars(name)
    requires forall i :: 0 <= i < |subs| ==> subs[i].shortName != name
    ensures ValidateShortName(None, Some(name), subs).None?
  {
  }

  lemma TrimExample()
    ensures Trim("A ") == "A"
  {
    TrimStartExample();
    TrimEndExample();
  }

  lemma TrimStartExample()
    ensures TrimStart("A ") == "A "
  {
    var name := "A ";
    assert |name| == 2 && name[0] == 'A';
  }

  lemma TrimEndExample()
    ensures TrimEnd("A ") == "A"
  {
    var name := "A ";
    assert |name| == 2 && name[1] == ' ' && name[..1] == "A";
    var a := "A";
    assert |a| == 1 && a[0] == 'A';
    assert TrimEnd(a) == a;
  }

  // ----- scanning the slots -----

  /** getSubprojects from slot i on, once `nullCount` empty slots have been seen: the
    * subprojects of the slots with a short name, in slot order, until five empty slots. */
  function Scan(sn: map<string, Option<string>>, ps: map<string, Option<string>>, i: nat, nullCount: nat): seq<Subproject>
    requires nullCount <= 5
    decreases 5 - nullCount, |sn.Keys - SlotsBelow(i)|
  {
    if nullCount == 5 then []
    else if HasValue(Lookup(sn, GetNum(i))) then
      SlotsBelowStep(sn.Keys, i);
      [Subproject(GetNum(i), Lookup(sn, GetNum(i)).value, Lookup(ps, GetNum(i)))] + Scan(sn, ps, i + 1, nullCount)
    else Scan(sn, ps, i + 1, nullCount + 1)
  }

  /** A slot with a short name contributes its subproject ahead of the rest of the scan. */
  lemma ScanHead(sn: map<string, Option<string>>, ps: map<string, Option<string>>, i: nat, nullCount: nat)
    requires nullCount < 5 && HasValue(Lookup(sn, GetNum(i)))
    ensures Scan(sn, ps, i, nullCount) ==
              [Subproject(GetNum(i), Lookup(sn, GetNum(i)).value, Lookup(ps, GetNum(i)))] + Scan(sn, ps, i + 1, nullCount)
  {
  }

  function Subprojects(sn: map<string, Option<string>>, ps: map<string, Option<string>>): seq<Subproject>
  {
    Scan(sn, ps, 0, 0)
  }

  /** Every subproject of `s` is a slot at or above i holding its short name and path, and
    * no two are in the same slot. */
  predicate SlotEntries(sn: map<string, Option<string>>, ps: map<string, Option<string>>, s: seq<Subproject>, i: nat)
  {
    (forall k :: 0 <= k < |s| ==>
       s[k].num !in SlotsBelow(i) && Lookup(sn, s[k].num) == Some(s[k].shortName) &&
       s[k].shortName != "" && s[k].path == Lookup(ps, s[k].num)) &&
    (forall k, l :: 0 <= k < l < |s| ==> s[k].num != s[l].num)
  }

  lemma {:induction false} ScanEntries(sn: map<string, Option<string>>, ps: map<string, Option<string>>, i: nat, nullCount: nat)
    requires nullCount <= 5
    ensures SlotEntries(sn, ps, Scan(sn, ps, i, nullCount), i)
    decreases 5 - nullCount, |sn.Keys - SlotsBelow(i)|
  {
    if nullCount < 5 {
      SlotsBelowSnoc(i);
      if HasValue(Lookup(sn, GetNum(i))) {
        SlotsBelowStep(sn.Keys, i);
        ScanEntries(sn, ps, i + 1, nullCount);
        var t := Scan(sn, ps, i + 1, nullCount);
        var x := Subproject(GetNum(i), Lookup(sn, GetNum(i)).value, Lookup(ps, GetNum(i)));
        ScanHead(sn, ps, i, nullCount);
        SlotEntriesCons(sn, ps, x, t, i);
      } else {
        ScanEntries(sn, ps, i + 1, nullCount + 1);
        assert Scan(sn, ps, i, nullCount) == Scan(sn, ps, i + 1, nullCount + 1);
        SlotEntriesLower(sn, ps, Scan(sn, ps, i + 1, nullCount + 1), i);
      }
    }
  }

  lemma SlotEntriesLower(sn: map<string, Option<string>>, ps: map<string, Option<string>>, s: seq<Subproject>, i: nat)
    requires SlotEntries(sn, ps, s, i + 1) && SlotsBelow(i + 1) == SlotsBelow(i) + {GetNum(i)}
    ensures SlotEntries(sn, ps, s, i)
  {
  }

  lemma SlotEntriesCons(sn: map<string, Option<string>>, ps: map<string, Option<string>>, x: Subproject, t: seq<Subproject>, i: nat)
    requires SlotEntries(sn, ps, t, i + 1) && SlotsBelow(i + 1) == SlotsBelow(i) + {GetNum(i)}
    requires x.num == GetNum(i) && GetNum(i) !in SlotsBelow(i)
    requires Lookup(sn, x.num) == Some(x.shortName) && x.shortName != "" && x.path == Lookup(ps, x.num)
    ensures SlotEntries(sn, ps, [x] + t, i)
  {
    var s := [x] + t;
    forall k, l | 0 <= k < l < |s|
      ensures s[k].num != s[l].num
    {
      assert s[l] == t[l - 1];
      if k > 0 {
        assert s[k] == t[k - 1];
      }
    }
  }

  /** The number of slots in [i, e) without a short name. */
  function Empties(sn: map<string, Option<string>>, i: nat, e: nat): nat
    decreases e - i
  {
    if e <= i then 0
    else (if HasValue(Lookup(sn, GetNum(i))) then 0 else 1) + Empties(sn, i + 1, e)
  }

  /** The scan never looks past the fifth empty slot: two states that agree up to there
    * give the same subprojects. */
  lemma {:induction false} ScanStopsAtFifthEmpty(sn1: map<string, Option<string>>, ps1: map<string, Option<string>>,
                                                 sn2: map<string, Option<string>>, ps2: map<string, Option<string>>,
                                                 i: nat, nullCount: nat, e: nat)
    requires nullCount <= 5 && i <= e && nullCount + Empties(sn1, i, e) >= 5
    requires forall j :: i <= j < e ==>
               Lookup(sn1, GetNum(j)) == Lookup(sn2, GetNum(j)) && Lookup(ps1, GetNum(j)) == Lookup(ps2, GetNum(j))
    ensures Scan(sn1, ps1, i, nullCount) == Scan(sn2, ps2, i, nullCount)
    decreases e - i
  {
    if nullCount < 5 {
      assert i < e;
      assert Lookup(sn1, GetNum(i)) == Lookup(sn2, GetNum(i));
      ScanStopsAtFifthEmpty(sn1, ps1, sn2, ps2, i + 1,
                            if HasValue(Lookup(sn1, GetNum(i))) then nullCount else nullCount + 1, e);
    }
  }

  // ----- compaction -----

  /** LinkedHashMap.remove: the subprojects other than the one in slot `num`, in order. */
  function RemoveNum(subs: seq<Subproject>, num: string): (r: seq<Subproject>)
    ensures forall k :: 0 <= k < |r| ==> r[k] in subs && r[k].num != num
    ensures forall p :: p in subs && p.num != num ==> p in r
  {
    if |subs| == 0 then []
    else (if subs[0].num == num then [] else [subs[0]]) + RemoveNum(subs[1..], num)
  }

  /** Slots 0.. written with the values `vals`, slot n under the key `key(n)`: the first `n`
    * of them, one slot after another. */
  function Written<K>(m: map<K, Option<string>>, key: nat -> K, vals: seq<Option<string>>, n: nat): map<K, Option<string>>
    requires n <= |vals|
  {
    if n == 0 then m else Written(m, key, vals, n - 1)[key(n - 1) := vals[n - 1]]
  }

  /** With distinct keys, each written slot holds its value and every other slot keeps its own. */
  lemma {:induction false} WrittenAt<K>(m: map<K, Option<string>>, key: nat -> K, vals: seq<Option<string>>, n: nat, j: nat)
    requires n <= |vals|
    requires forall a: nat, b: nat :: key(a) == key(b) ==> a == b
    ensures j < n ==> Lookup(Written(m, key, vals, n), key(j)) == vals[j]
    ensures j >= n ==> Lookup(Written(m, key, vals, n), key(j)) == Lookup(m, key(j))
  {
    if n > 0 {
      WrittenAt(m, key, vals, n - 1, j);
    }
  }

  lemma GetNumsDistinct()
    ensures forall a: nat, b: nat :: GetNum(a) == GetNum(b) ==> a == b
  {
    forall a: nat, b: nat | GetNum(a) == GetNum(b)
      ensures a == b
    {
      GetNumInjective(a, b);
    }
  }

  /** What doRemove writes: each remaining short name (or path), then five missing values. */
  function NamesThenClear(rest: seq<Subproject>): (r: seq<Option<string>>)
    ensures |r| == |rest| + 5
    ensures forall k :: 0 <= k < |rest| ==> r[k] == Some(rest[k].shortName)
    ensures forall k :: |rest| <= k < |r| ==> r[k] == None
  {
    seq(|rest|, k requires 0 <= k < |rest| => Some(rest[k].shortName)) + [None, None, None, None, None]
  }

  function PathsThenClear(rest: seq<Subproject>): (r: seq<Option<string>>)
    ensures |r| == |rest| + 5
    ensures forall k :: 0 <= k < |rest| ==> r[k] == rest[k].path
    ensures forall k :: |rest| <= k < |r| ==> r[k] == None
  {
    seq(|rest|, k requires 0 <= k < |rest| => rest[k].path) + [None, None, None, None, None]
  }

  /** The subprojects renumbered into slots 00, 01, ... in their order. */
  function Renumbered(rest: seq<Subproject>): (r: seq<Subproject>)
    ensures |r| == |rest|
  {
    seq(|rest|, k requires 0 <= k < |rest| => Subproject(GetNum(k), rest[k].shortName, rest[k].path))
  }

  /** Five empty slots from i on end the scan. */
  lemma {:induction false} ScanOfEmptyRun(sn: map<string, Option<string>>, ps: map<string, Option<string>>, i: nat, nullCount: nat)
    requires nullCount <= 5
    requires forall j :: i <= j < i + 5 - nullCount ==> Lookup(sn, GetNum(j)) == None
    ensures Scan(sn, ps, i, nullCount) == []
    decreases 5 - nullCount
  {
    if nullCount < 5 {
      ScanOfEmptyRun(sn, ps, i + 1, nullCount + 1);
    }
  }

  /** Slots 0..|rest|-1 holding the subprojects and the next five slots empty. */
  predicate Compacted(sn: map<string, Option<string>>, ps: map<string, Option<string>>, rest: seq<Subproject>)
  {
    (forall j :: 0 <= j < |rest| ==>
       Lookup(sn, GetNum(j)) == Some(rest[j].shortName) && Lookup(ps, GetNum(j)) == rest[j].path) &&
    (forall j :: |rest| <= j < |rest| + 5 ==> Lookup(sn, GetNum(j)) == None)
  }

  lemma {:induction false} ScanOfCompacted(sn: map<string, Option<string>>, ps: map<string, Option<string>>, rest: seq<Subproject>, i: nat)
    requires Compacted(sn, ps, rest) && i <= |rest|
    requires forall k :: 0 <= k < |rest| ==> rest[k].shortName != ""
    ensures Scan(sn, ps, i, 0) == Renumbered(rest)[i..]
    decreases |rest| - i
  {
    if i == |rest| {
      ScanOfEmptyRun(sn, ps, i, 0);
    } else {
      var r := Renumbered(rest);
      ScanOfCompacted(sn, ps, rest, i + 1);
      assert Lookup(sn, GetNum(i)) == Some(rest[i].shortName) && Lookup(ps, GetNum(i)) == rest[i].path;
      ScanHead(sn, ps, i, 0);
      assert r[i] == Subproject(GetNum(i), rest[i].shortName, rest[i].path);
      SliceCons(r, i);
    }
  }

  /** After doRemove the list reads back as the remaining subprojects, in their order,
    * renumbered from slot 00. */
  lemma RemoveCompacts(sn: map<string, Option<string>>, ps: map<string, Option<string>>, num: string)
    ensures var rest := RemoveNum(Subprojects(sn, ps), num);
            Subprojects(Written(sn, GetNum, NamesThenClear(rest), |rest| + 5), Written(ps, GetNum, PathsThenClear(rest), |rest| + 5))
              == Renumbered(rest)
  {
    var rest := RemoveNum(Subprojects(sn, ps), num);
    RemainingNamed(sn, ps, num);
    WrittenCompacted(sn, ps, rest);
    ScanOfCompacted(Written(sn, GetNum, NamesThenClear(rest), |rest| + 5), Written(ps, GetNum, PathsThenClear(rest), |rest| + 5), rest, 0);
  }

  /** Every subproject left after the removal has a short name. */
  lemma RemainingNamed(sn: map<string, Option<string>>, ps: map<string, Option<string>>, num: string)
    ensures forall k :: 0 <= k < |RemoveNum(Subprojects(sn, ps), num)| ==> RemoveNum(Subprojects(sn, ps), num)[k].shortName != ""
  {
    var subs := Subprojects(sn, ps);
    var rest := RemoveNum(subs, num);
    ScanEntries(sn, ps, 0, 0);
    forall k | 0 <= k < |rest|
      ensures rest[k].shortName != ""
    {
      assert rest[k] in subs;
      var idx :| 0 <= idx < |subs| && subs[idx] == rest[k];
    }
  }

  /** Writing the subprojects into slots 00, 01, ... and clearing the next five compacts them. */
  lemma WrittenCompacted(sn: map<string, Option<string>>, ps: map<string, Option<string>>, rest: seq<Subproject>)
    ensures Compacted(Written(sn, GetNum, NamesThenClear(rest), |rest| + 5), Written(ps, GetNum, PathsThenClear(rest), |rest| + 5), rest)
  {
    var names, hierarchyPaths := NamesThenClear(rest), PathsThenClear(rest);
    var sn', ps' := Written(sn, GetNum, names, |rest| + 5), Written(ps, GetNum, hierarchyPaths, |rest| + 5);
    GetNumsDistinct();
    forall j | 0 <= j < |rest| + 5
      ensures Lookup(sn', GetNum(j)) == names[j] && Lookup(ps', GetNum(j)) == hierarchyPaths[j]
    {
      WrittenAt(sn, GetNum, names, |rest| + 5, j);
      WrittenAt(ps, GetNum, hierarchyPaths, |rest| + 5, j);
    }
  }

  lemma SliceCons<T>(s: seq<T>, i: nat)
    requires i < |s|
    ensures s[i..] == [s[i]] + s[i + 1..]
  {
  }

  lemma AppendAssoc(a: seq<Subproject>, b: seq<Subproject>, c: seq<Subproject>)
    ensures (a + b) + c == a + (b + c)
  {
  }

  /** The first slot whose short name is missing. */
  method FirstFreeSlot(sn: map<string, Option<string>>) returns (i: nat)
    ensures !SlotTaken(sn, i) && forall j :: 0 <= j < i ==> SlotTaken(sn, j)
  {
    i := 0;
    while Lookup(sn, GetNum(i)).Some?
      invariant SlotsTaken(sn, i)
      decreases |sn.Keys - SlotsBelow(i)|
    {
      SlotsBelowStep(sn.Keys, i);
      i := i + 1;
    }
    SlotsTakenBelow(sn, i);
  }

  /** Every slot below i has a short name. */
  predicate SlotsTaken(sn: map<string, Option<string>>, i: nat)
  {
    i == 0 || (SlotTaken(sn, i - 1) && SlotsTaken(sn, i - 1))
  }

  lemma {:induction false} SlotsTakenBelow(sn: map<string, Option<string>>, i: nat)
    requires SlotsTaken(sn, i)
    ensures forall j :: 0 <= j < i ==> SlotTaken(sn, j)
  {
    if i > 0 {
      SlotsTakenBelow(sn, i - 1);
    }
  }

  /** Slot j has a short name. */
  predicate SlotTaken(sn: map<string, Option<string>>, j: nat)
  {
    Lookup(sn, GetNum(j)).Some?
  }

  /** The name and the path stored in the first slot without a short name. */
  method StoreInFreeSlot(sn: map<string, Option<string>>, ps: map<string, Option<string>>, name: string, path: Option<string>)
    returns (sn': map<string, Option<string>>, ps': map<string, Option<string>>, slot: nat)
    ensures !SlotTaken(sn, slot) && forall j :: 0 <= j < slot ==> SlotTaken(sn, j)
    ensures sn' == sn[GetNum(slot) := Some(name)] && ps' == ps[GetNum(slot) := path]
  {
    slot := FirstFreeSlot(sn);
    var num := GetNum(slot);
    sn' := sn[num := Some(name)];
    ps' := ps[num := path];
  }

  // ----- the form handlers -----

  class SubprojectList {
    /** The short name and the hierarchy path of each slot, by slot number text. */
    var shortNames: map<string, Option<string>>
    var paths: map<string, Option<string>>

    constructor (names: map<string, Option<string>>, hierarchyPaths: map<string, Option<string>>)
      ensures shortNames == names && paths == hierarchyPaths
    {
      shortNames, paths := names, hierarchyPaths;
    }

    /** getSubprojects: the slots scanned upwards until five of them had no short name. */
    method GetSubprojects() returns (result: seq<Subproject>)
      ensures result == Subprojects(shortNames, paths)
    {
      result := [];
      var nullCount := 0;
      var i := 0;
      while nullCount < 5
        invariant nullCount <= 5
        invariant result + Scan(shortNames, paths, i, nullCount) == Subprojects(shortNames, paths)
        decreases 5 - nullCount, |shortNames.Keys - SlotsBelow(i)|
      {
        var num := GetNum(i);
        var shortName := Lookup(shortNames, num);
        var path := Lookup(paths, num);
        if HasValue(shortName) {
          SlotsBelowStep(shortNames.Keys, i);
          var proj := Subproject(num, shortName.value, path);
          ScanHead(shortNames, paths, i, nullCount);
          AppendAssoc(result, [proj], Scan(shortNames, paths, i + 1, nullCount));
          result := result + [proj];
        } else {
          nullCount := nullCount + 1;
        }
        i := i + 1;
      }
    }

    /** doAdd as written: the name is checked untrimmed and stored trimmed, in the first
      * slot without a short name. */
    method DoAddAsWritten(shortName: Option<string>, path: Option<string>)
      returns (shortNameError: Option<string>, pathError: Option<string>, ghost slot: nat)
      modifies this
      ensures var subs := old(Subprojects(shortNames, paths));
              shortNameError == ValidateShortName(None, shortName, subs) && pathError == ValidatePath(None, path, subs)
      ensures shortNameError.Some? || pathError.Some? ==> shortNames == old(shortNames) && paths == old(paths)
      ensures shortNameError.None? && pathError.None? ==>
                shortName.Some? && path.Some? &&
                !SlotTaken(old(shortNames), slot) && (forall j :: 0 <= j < slot ==> SlotTaken(old(shortNames), j)) &&
                shortNames == old(shortNames)[GetNum(slot) := Some(Trim(shortName.value))] &&
                paths == old(paths)[GetNum(slot) := path]
    {
      var subprojects := GetSubprojects();
      shortNameError := ValidateShortName(None, shortName, subprojects);
      pathError := ValidatePath(None, path, subprojects);
      slot := 0;
      if shortNameError.Some? || pathError.Some? {
        return;
      }
      shortNames, paths, slot := StoreInFreeSlot(shortNames, paths, Trim(shortName.value), path);
    }

    /** doAdd, checking the trimmed name it stores as well: a new subproject never takes a
      * short name a listed subproject already has. */
    method DoAdd(shortName: Option<string>, path: Option<string>)
      returns (shortNameError: Option<string>, pathError: Option<string>, ghost slot: nat)
      modifies this
      ensures var subs := old(Subprojects(shortNames, paths));
              pathError == ValidatePath(None, path, subs) &&
              (shortNameError.None? <==>
                 ValidateShortName(None, shortName, subs).None? &&
                 ValidateShortName(None, Some(Trim(shortName.value)), subs).None?)
      ensures shortNameError.Some? || pathError.Some? ==> shortNames == old(shortNames) && paths == old(paths)
      ensures shortNameError.None? && pathError.None? ==>
                shortName.Some? && path.Some? &&
                !SlotTaken(old(shortNames), slot) && (forall j :: 0 <= j < slot ==> SlotTaken(old(shortNames), j)) &&
                shortNames == old(shortNames)[GetNum(slot) := Some(Trim(shortName.value))] &&
                paths == old(paths)[GetNum(slot) := path]
      ensures var subs := old(Subprojects(shortNames, paths));
              shortNameError.None? && pathError.None? ==>
                forall k :: 0 <= k < |subs| ==> subs[k].shortName != Trim(shortName.value)
    {
      var subprojects := GetSubprojects();
      shortNameError := ValidateShortName(None, shortName, subprojects);
      if shortNameError.None? {
        shortNameError := ValidateShortName(None, Some(Trim(shortName.value)), subprojects);
      }
      pathError := ValidatePath(None, path, subprojects);
      slot := 0;
      if shortNameError.Some? || pathError.Some? {
        return;
      }
      shortNames, paths, slot := StoreInFreeSlot(shortNames, paths, Trim(shortName.value), path);
    }

    /** doEdit: without a slot number nothing happens; otherwise the values are checked
      * against the other slots and stored untrimmed in the given slot. */
    method DoEdit(num: Option<string>, shortName: Option<string>, path: Option<string>)
      returns (shortNameError: Option<string>, pathError: Option<string>)
      modifies this
      ensures !HasValue(num) ==> shortNameError.None? && pathError.None? && shortNames == old(shortNames) && paths == old(paths)
      ensures HasValue(num) ==>
                var subs := old(Subprojects(shortNames, paths));
                shortNameError == ValidateShortName(num, shortName, subs) && pathError == ValidatePath(num, path, subs)
      ensures shortNameError.Some? || pathError.Some? ==> shortNames == old(shortNames) && paths == old(paths)
      ensures HasValue(num) && shortNameError.None? && pathError.None? ==>
                shortName.Some? && path.Some? &&
                shortNames == old(shortNames)[num.value := shortName] && paths == old(paths)[num.value := path]
    {
      if !HasValue(num) {
        return None, None;
      }
      var subprojects := GetSubprojects();
      shortNameError := ValidateShortName(num, shortName, subprojects);
      pathError := ValidatePath(num, path, subprojects);
      if shortNameError.Some? || pathError.Some? {
        return;
      }
      shortNames := shortNames[num.value := shortName];
      paths := paths[num.value := path];
    }

    /** Slot n given the short name `names[n]` and the path `hierarchyPaths[n]`, from slot 00 up. */
    method WriteSlots(names: seq<Option<string>>, hierarchyPaths: seq<Option<string>>)
      requires |names| == |hierarchyPaths|
      modifies this
      ensures shortNames == Written(old(shortNames), GetNum, names, |names|)
      ensures paths == Written(old(paths), GetNum, hierarchyPaths, |names|)
    {
      var n := 0;
      while n < |names|
        invariant n <= |names|
        invariant shortNames == Written(old(shortNames), GetNum, names, n)
        invariant paths == Written(old(paths), GetNum, hierarchyPaths, n)
      {
        var num := GetNum(n);
        shortNames := shortNames[num := names[n]];
        paths := paths[num := hierarchyPaths[n]];
        n := n + 1;
      }
    }

    /** doRemove: the listed subprojects other than `numToDelete` rewritten into slots
      * 00, 01, ... in order, then the next five slots cleared. */
    method DoRemove(numToDelete: Option<string>)
      modifies this
      ensures !HasValue(numToDelete) ==> shortNames == old(shortNames) && paths == old(paths)
      ensures HasValue(numToDelete) ==>
                var rest := RemoveNum(old(Subprojects(shortNames, paths)), numToDelete.value);
                shortNames == Written(old(shortNames), GetNum, NamesThenClear(rest), |rest| + 5) &&
                paths == Written(old(paths), GetNum, PathsThenClear(rest), |rest| + 5) &&
                Subprojects(shortNames, paths) == Renumbered(rest)
    {
      if !HasValue(numToDelete) {
        return;
      }
      var subprojects := GetSubprojects();
      var rest := RemoveNum(subprojects, numToDelete.value);
      ghost var sn0, ps0 := shortNames, paths;
      WriteSlots(NamesThenClear(rest), PathsThenClear(rest));
      RemoveCompacts(sn0, ps0, numToDelete.value);
    }
  }
}
