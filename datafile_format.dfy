/**
 * The line-oriented datafile text format: reading `name=value` lines into a map of names
 * to value strings, and the lines a datafile is saved as.
 *
 * A datafile is modelled as its sequence of lines; reading bytes and splitting them into
 * lines is not part of this model.
 */
module Datafiles {
  import opened Wrappers
  import opened Strings
  import opened DataElements

  /** The directive that must open a datafile that inherits defaults from another. */
  const INCLUDE_TAG: string := "#include "

  /** Why a datafile could not be loaded. IncludeCycle stands for the stack overflow that a
    * file including itself, directly or through others, runs into. */
  datatype LoadError = InvalidDatafileFormat | FileNotFound(path: string) | IncludeCycle

  /** Comment lines (starting with `=`) and blank lines carry no assignment. */
  predicate Skippable(line: string)
  {
    StartsWith(line, "=") || Trim(line) == ""
  }

  /** A line that is neither skippable nor an assignment: loading fails on it. */
  predicate Malformed(line: string)
  {
    !Skippable(line) && !ContainsChar(line, '=')
  }

  /** The effect of one line of a datafile body on the map being filled: the name is the
    * text before the first `=` and the value the text after it; the values `null` and
    * `=null` remove the name. */
  function AssignLine(dest: map<string, string>, line: string): Result<map<string, string>, LoadError>
  {
    if Skippable(line) then Ok(dest)
    else match IndexOf(line, '=')
      case None => Err(InvalidDatafileFormat)
      case Some(eq) =>
        var name, value := line[..eq], line[eq + 1..];
        if value == "null" || value == "=null" then Ok(dest - {name})
        else Ok(dest[name := value])
  }

  /** The lines of a datafile body applied one after another to `dest`; the first
    * malformed line stops the load. */
  function Assign(dest: map<string, string>, lines: seq<string>): Result<map<string, string>, LoadError>
  {
    if lines == [] then Ok(dest)
    else match Assign(dest, lines[..|lines| - 1])
      case Err(e) => Err(e)
      case Ok(d) => AssignLine(d, lines[|lines| - 1])
  }

  /** One line fails to load exactly when it is malformed. */
  lemma AssignLineFails(dest: map<string, string>, line: string)
    ensures AssignLine(dest, line).Err? <==> Malformed(line)
    ensures AssignLine(dest, line).Err? ==> AssignLine(dest, line).error == InvalidDatafileFormat
  {
  }

  /** Loading fails exactly when some line is malformed, and then with
    * InvalidDatafileFormat. */
  lemma {:induction false} AssignFailsIff(dest: map<string, string>, lines: seq<string>)
    ensures Assign(dest, lines).Err? <==> exists i :: 0 <= i < |lines| && Malformed(lines[i])
    ensures Assign(dest, lines).Err? ==> Assign(dest, lines).error == InvalidDatafileFormat
  {
    if lines != [] {
      var init := lines[..|lines| - 1];
      var last := lines[|lines| - 1];
      AssignFailsIff(dest, init);
      var prev := Assign(dest, init);
      if prev.Ok? {
        AssignLineFails(prev.value, last);
      }
      SomeMalformedSplit(lines, init);
    }
  }

  /** Some line is malformed exactly when one before the last is, or the last is. */
  lemma SomeMalformedSplit(lines: seq<string>, init: seq<string>)
    requires lines != [] && init == lines[..|lines| - 1]
    ensures (exists i :: 0 <= i < |lines| && Malformed(lines[i])) <==>
            (exists i :: 0 <= i < |init| && Malformed(init[i])) || Malformed(lines[|lines| - 1])
  {
    assert forall i :: 0 <= i < |init| ==> init[i] == lines[i];
  }

  /** Loading two runs of lines is loading the first, then the second on its result. */
  lemma {:induction false} AssignAppend(dest: map<string, string>, a: seq<string>, b: seq<string>)
    ensures Assign(dest, a + b) == match Assign(dest, a)
                                   case Err(e) => Err(e)
                                   case Ok(d) => Assign(d, b)
  {
    if b != [] {
      assert (a + b)[..|a + b| - 1] == a + b[..|b| - 1];
      AssignAppend(dest, a, b[..|b| - 1]);
    } else {
      assert a + b == a;
    }
  }

  /** Reading the lines one at a time, as loadDatafile's loop does. */
  method ReadAssignments(lines: seq<string>, dest: map<string, string>) returns (r: Result<map<string, string>, LoadError>)
    ensures r == Assign(dest, lines)
  {
    var d := dest;
    for i := 0 to |lines|
      invariant Assign(dest, lines[..i]) == Ok(d)
    {
      var line := lines[i];
      assert lines[..i + 1][..i] == lines[..i];
      if StartsWith(line, "=") || |Trim(line)| == 0 {
        continue;
      }
      var equalsPosition := IndexOf(line, '=');
      if equalsPosition.None? {
        assert lines[..i + 1][..i] == lines[..i];
        AssignFailsIff(dest, lines);
        assert Malformed(lines[i]);
        return Err(InvalidDatafileFormat);
      }
      var name := line[..equalsPosition.value];
      var value := line[equalsPosition.value + 1..];
      if value == "null" || value == "=null" {
        d := d - {name};
      } else {
        d := d[name := value];
      }
    }
    assert lines[..|lines|] == lines;
    r := Ok(d);
  }

  /** The text a value is saved as: its save string, after a `=` when it is not editable. */
  function SavedText(v: Value): string
  {
    if v.editable then v.text else "=" + v.text
  }

  /** openDatafile's reading of a value string: a leading `=` marks a value that cannot
    * be edited and is stripped. */
  function LoadedText(s: string): (string, bool)
  {
    if StartsWith(s, "=") then (s[1..], false) else (s, true)
  }

  /** Saving and loading a value keeps its save string and its editable flag, for every
    * save string not itself starting with `=`. */
  lemma SavedTextLoads(v: Value)
    requires !StartsWith(v.text, "=")
    ensures LoadedText(SavedText(v)) == (v.text, v.editable)
  {
    if !v.editable {
      assert ("=" + v.text)[1..] == v.text;
    }
  }

  /** The lines that open a saved datafile: the include directive of a file that inherits,
    * then a comment naming a non-empty prefix. */
  function HeaderLines(inheritsFrom: Option<string>, prefix: string): seq<string>
  {
    (if inheritsFrom.Some? then [INCLUDE_TAG + inheritsFrom.value] else []) +
    (if |prefix| > 0 then ["= Data for " + prefix] else [])
  }

  /** The values a sparse save writes: those that differ from the inherited default, or
    * have none. */
  function Sparse(values: map<string, string>, defaults: map<string, string>): (r: map<string, string>)
    ensures forall k :: k in r <==> k in values && (k !in defaults || defaults[k] != values[k])
    ensures forall k :: k in r ==> r[k] == values[k]
  {
    map k | k in values && (k !in defaults || defaults[k] != values[k]) :: values[k]
  }

  /** Omitting the values equal to their defaults loses nothing once the defaults are
    * read back in first. */
  lemma SparseLosesNothing(values: map<string, string>, defaults: map<string, string>)
    ensures defaults + Sparse(values, defaults) == defaults + values
  {
  }

  /** The line a value is saved as. */
  function SavedLine(name: string, text: string): string
  {
    name + "=" + text
  }

  /** The `name=value` line saved for each name of `order`, in that order. */
  function LinesOf(order: seq<string>, values: map<string, string>): (r: seq<string>)
    requires forall i :: 0 <= i < |order| ==> order[i] in values
    ensures |r| == |order|
    ensures forall i :: 0 <= i < |order| ==> r[i] == SavedLine(order[i], values[order[i]])
  {
    if order == [] then []
    else LinesOf(order[..|order| - 1], values) + [SavedLine(order[|order| - 1], values[order[|order| - 1]])]
  }

  /** A name and saved text that survive a save and a load: the name is not empty and holds
    * no `=`, and the text is not one that loading reads as a removal. */
  predicate Storable(name: string, text: string)
  {
    name != "" && !ContainsChar(name, '=') && text != "null" && text != "=null"
  }

  /** A saved line loads as the assignment it was written from. */
  lemma SavedLineLoads(dest: map<string, string>, name: string, text: string)
    requires Storable(name, text)
    ensures AssignLine(dest, SavedLine(name, text)) == Ok(dest[name := text])
  {
    var line := SavedLine(name, text);
    SavedLineNotSkippable(name, text);
    SavedLineSplits(name, text);
    assert line[..|name|] == name && line[|name| + 1..] == text;
  }

  /** A saved line is no comment and not blank. */
  lemma SavedLineNotSkippable(name: string, text: string)
    requires name != "" && !ContainsChar(name, '=')
    ensures !Skippable(SavedLine(name, text))
  {
    var line := SavedLine(name, text);
    assert line[0] == name[0] && line[|name|] == '=';
    assert !StartsWith(line, "=") by {
      assert line[..1] == [name[0]] && name[0] != '=';
    }
    assert Trim(line) != "" by {
      assert !IsJavaSpace(line[|name|]);
      TrimEmptyIffAllSpace(line);
    }
  }

  /** The first `=` of a saved line is the one after the name. */
  lemma SavedLineSplits(name: string, text: string)
    requires !ContainsChar(name, '=')
    ensures IndexOf(SavedLine(name, text), '=') == Some(|name|)
  {
    var line := SavedLine(name, text);
    assert forall j :: 0 <= j < |name| ==> line[j] == name[j];
    IndexOfIs(line, '=', |name|);
  }

  /** The values of the names in `order`, the later of two equal names winning. */
  function Picked(order: seq<string>, values: map<string, string>): (r: map<string, string>)
    requires forall i :: 0 <= i < |order| ==> order[i] in values
    ensures forall k :: k in r <==> k in order
    ensures forall k :: k in r ==> r[k] == values[k]
  {
    if order == [] then map[]
    else Picked(order[..|order| - 1], values)[order[|order| - 1] := values[order[|order| - 1]]]
  }

  lemma MergeThenUpdate(d: map<string, string>, p: map<string, string>, k: string, v: string)
    ensures (d + p)[k := v] == d + p[k := v]
  {
  }

  /** Loading saved lines over `dest` sets each saved name to its saved text. */
  lemma {:induction false} LinesOfLoad(dest: map<string, string>, order: seq<string>, values: map<string, string>)
    requires forall i :: 0 <= i < |order| ==> order[i] in values && Storable(order[i], values[order[i]])
    ensures Assign(dest, LinesOf(order, values)) == Ok(dest + Picked(order, values))
  {
    if order != [] {
      var init := order[..|order| - 1];
      var last := order[|order| - 1];
      var before := dest + Picked(init, values);
      LinesOfLoad(dest, init, values);
      AssignAppend(dest, LinesOf(init, values), [SavedLine(last, values[last])]);
      assert Assign(before, [SavedLine(last, values[last])]) == AssignLine(before, SavedLine(last, values[last]));
      SavedLineLoads(before, last, values[last]);
      assert Picked(order, values) == Picked(init, values)[last := values[last]];
      MergeThenUpdate(dest, Picked(init, values), last, values[last]);
    } else {
      assert dest + Picked(order, values) == dest;
    }
  }

  /** The round trip of a sparse save: reading the saved body (its prefix comment and one
    * line per value that differs from its default, in any order) over the inherited
    * defaults gives back every saved value. */
  lemma SaveThenLoad(defaults: map<string, string>, values: map<string, string>, prefix: string, order: seq<string>)
    requires forall k :: k in values ==> Storable(k, values[k])
    requires forall i :: 0 <= i < |order| ==> order[i] in Sparse(values, defaults)
    requires forall k :: k in Sparse(values, defaults) ==> k in order
    ensures Assign(defaults, HeaderLines(None, prefix) + LinesOf(order, Sparse(values, defaults))) ==
            Ok(defaults + values)
  {
    var sparse := Sparse(values, defaults);
    var header := HeaderLines(None, prefix);
    AssignAppend(defaults, header, LinesOf(order, sparse));
    HeaderAssignsNothing(defaults, prefix);
    LinesOfLoad(defaults, order, sparse);
    PickedAll(order, sparse);
    SparseLosesNothing(values, defaults);
  }

  /** The header of a save, a comment at most, assigns nothing. */
  lemma HeaderAssignsNothing(defaults: map<string, string>, prefix: string)
    ensures Assign(defaults, HeaderLines(None, prefix)) == Ok(defaults)
  {
    var header := HeaderLines(None, prefix);
    if |prefix| > 0 {
      assert header == [] + ["= Data for " + prefix];
      assert Skippable(header[0]);
    }
  }

  /** Picking every key of a map, in any order, gives the map back. */
  lemma PickedAll(order: seq<string>, m: map<string, string>)
    requires forall i :: 0 <= i < |order| ==> order[i] in m
    requires forall k :: k in m ==> k in order
    ensures Picked(order, m) == m
  {
    assert Picked(order, m).Keys == m.Keys;
  }

  /** What loadDatafile yields: the values read, and the include file named on the first
    * line, if any. */
  datatype Loaded = Loaded(values: map<string, string>, inheritsFrom: Option<string>)

  /** The include file named by a first line that starts with INCLUDE_TAG. */
  function IncludeName(line: string): string
    requires StartsWith(line, INCLUDE_TAG)
  {
    Trim(line[|INCLUDE_TAG|..])
  }

  /** The first line names an include file. */
  predicate HasInclude(lines: seq<string>)
  {
    lines != [] && StartsWith(lines[0], INCLUDE_TAG)
  }

  function Tagged(r: Result<map<string, string>, LoadError>, inheritsFrom: Option<string>): Result<Loaded, LoadError>
  {
    match r
    case Ok(values) => Ok(Loaded(values, inheritsFrom))
    case Err(e) => Err(e)
  }

  /** loadDatafile on the lines of a datafile, filling `dest`. A first line naming an include
    * file loads that file's values first (from `cache`, or else by loading the lines
    * `sources` holds for it, which are then cached); an include name in double quotes is
    * refused. Returns the outcome and the cache afterwards; `stack` holds the include files
    * being read by the enclosing loads. */
  function Load(lines: seq<string>, dest: map<string, string>, sources: map<string, seq<string>>,
                cache: map<string, map<string, string>>, stack: set<string>)
    : (r: (Result<Loaded, LoadError>, map<string, map<string, string>>))
    ensures forall k :: k in cache ==> k in r.1 && r.1[k] == cache[k]
    ensures r.0.Ok? && r.0.value.inheritsFrom.None? ==> !HasInclude(lines) && Assign(dest, lines) == Ok(r.0.value.values)
    ensures r.0.Ok? && r.0.value.inheritsFrom.Some? ==>
              var inc := r.0.value.inheritsFrom.value;
              HasInclude(lines) && inc == IncludeName(lines[0]) && inc in r.1 &&
              Assign(dest + r.1[inc], lines[1..]) == Ok(r.0.value.values)
    decreases sources.Keys - stack
  {
    if !HasInclude(lines) then (Tagged(Assign(dest, lines), None), cache)
    else
      var inc := IncludeName(lines[0]);
      if StartsWith(inc, "\"") then (Err(InvalidDatafileFormat), cache)
      else if inc in cache then (Tagged(Assign(dest + cache[inc], lines[1..]), Some(inc)), cache)
      else if inc !in sources then (Err(FileNotFound(inc)), cache)
      else if inc in stack then (Err(IncludeCycle), cache)
      else
        assert sources.Keys - (stack + {inc}) < sources.Keys - stack;
        var (sub, cache1) := Load(sources[inc], map[], sources, cache, stack + {inc});
        match sub
        case Err(e) => (Err(e), cache1)
        case Ok(included) =>
          (Tagged(Assign(dest + included.values, lines[1..]), Some(inc)), cache1[inc := included.values])
  }

  /** The round trip of a whole saved datafile: loading the lines a save writes (the include
    * line of an inheriting file, the prefix comment, one line per value differing from the
    * cached defaults) gives back the defaults overlaid with every saved value, and names
    * the same include file. */
  lemma SavedFileLoads(inheritsFrom: Option<string>, prefix: string, values: map<string, string>, order: seq<string>,
                       sources: map<string, seq<string>>, cache: map<string, map<string, string>>, stack: set<string>)
    requires inheritsFrom.Some? ==> inheritsFrom.value in cache && IsTrimmed(inheritsFrom.value) &&
                                    !StartsWith(inheritsFrom.value, "\"")
    requires inheritsFrom.None? ==> |prefix| > 0
    requires forall k :: k in values ==> Storable(k, values[k])
    requires var defaults := if inheritsFrom.Some? then cache[inheritsFrom.value] else map[];
             (forall i :: 0 <= i < |order| ==> order[i] in Sparse(values, defaults)) &&
             (forall k :: k in Sparse(values, defaults) ==> k in order)
    ensures var defaults := if inheritsFrom.Some? then cache[inheritsFrom.value] else map[];
            var lines := HeaderLines(inheritsFrom, prefix) + LinesOf(order, Sparse(values, defaults));
            Load(lines, map[], sources, cache, stack) == (Ok(Loaded(defaults + values, inheritsFrom)), cache)
  {
    if inheritsFrom.Some? {
      IncludingFileLoads(inheritsFrom.value, prefix, values, order, sources, cache, stack);
    } else {
      var body := LinesOf(order, Sparse(values, map[]));
      var lines := HeaderLines(None, prefix) + body;
      SaveThenLoad(map[], values, prefix, order);
      assert lines[0] == "= Data for " + prefix;
      assert lines[0][0] == '=' != INCLUDE_TAG[0];
    }
  }

  lemma IncludingFileLoads(inc: string, prefix: string, values: map<string, string>, order: seq<string>,
                           sources: map<string, seq<string>>, cache: map<string, map<string, string>>, stack: set<string>)
    requires inc in cache && IsTrimmed(inc) && !StartsWith(inc, "\"")
    requires forall k :: k in values ==> Storable(k, values[k])
    requires forall i :: 0 <= i < |order| ==> order[i] in Sparse(values, cache[inc])
    requires forall k :: k in Sparse(values, cache[inc]) ==> k in order
    ensures var lines := HeaderLines(Some(inc), prefix) + LinesOf(order, Sparse(values, cache[inc]));
            Load(lines, map[], sources, cache, stack) == (Ok(Loaded(cache[inc] + values, Some(inc))), cache)
  {
    var defaults := cache[inc];
    var body := LinesOf(order, Sparse(values, defaults));
    var rest := HeaderLines(None, prefix) + body;
    IncludeHeader(inc, prefix, body);
    LoadCachedInclude(inc, rest, sources, cache, stack);
    SaveThenLoad(defaults, values, prefix, order);
  }

  /** A file whose first line includes a cached file reads its other lines over the cached
    * values. */
  lemma LoadCachedInclude(inc: string, rest: seq<string>, sources: map<string, seq<string>>,
                          cache: map<string, map<string, string>>, stack: set<string>)
    requires inc in cache && IsTrimmed(inc) && !StartsWith(inc, "\"")
    ensures Load([INCLUDE_TAG + inc] + rest, map[], sources, cache, stack) ==
            (Tagged(Assign(cache[inc], rest), Some(inc)), cache)
  {
    IncludeLineNames(inc, rest);
    LoadCached([INCLUDE_TAG + inc] + rest, sources, cache, stack);
  }

  /** The header of an inheriting file is its include line ahead of the prefix comment. */
  lemma IncludeHeader(inc: string, prefix: string, body: seq<string>)
    ensures HeaderLines(Some(inc), prefix) + body == [INCLUDE_TAG + inc] + (HeaderLines(None, prefix) + body)
  {
  }

  /** A file including a cached file reads its other lines over the cached values. */
  lemma LoadCached(lines: seq<string>, sources: map<string, seq<string>>,
                   cache: map<string, map<string, string>>, stack: set<string>)
    requires HasInclude(lines) && IncludeName(lines[0]) in cache && !StartsWith(IncludeName(lines[0]), "\"")
    ensures Load(lines, map[], sources, cache, stack) ==
            (Tagged(Assign(cache[IncludeName(lines[0])], lines[1..]), Some(IncludeName(lines[0]))), cache)
  {
    assert map[] + cache[IncludeName(lines[0])] == cache[IncludeName(lines[0])];
  }

  /** A first line written as INCLUDE_TAG followed by a trimmed name names that file. */
  lemma IncludeLineNames(inc: string, rest: seq<string>)
    requires IsTrimmed(inc)
    ensures var lines := [INCLUDE_TAG + inc] + rest;
            HasInclude(lines) && IncludeName(lines[0]) == inc && lines[1..] == rest
  {
    var first := INCLUDE_TAG + inc;
    assert first[..|INCLUDE_TAG|] == INCLUDE_TAG && first[|INCLUDE_TAG|..] == inc;
    TrimOfTrimmed(inc);
    assert ([first] + rest)[1..] == rest;
  }
}
