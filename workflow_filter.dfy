/**
 * The client-side filter of the "workflow to date" report.  Each column of
 * the report has a filter panel in the filter row; a panel's inputs are read
 * into an evaluator (a test on one table cell), and every data row is marked
 * excluded when some evaluator rejects one of its cells.
 *
 * The page is modelled as a class whose fields are the parts of the document
 * the script changes: the panels' classes and enabled flag, the rows' marks
 * and the cells' marks.  The evaluators the generators build (closures in
 * the script) are the values of the `Evaluator` datatype, and calling one is
 * `Accepts`.
 */
module WorkflowFilter {
  import opened Wrappers
  import opened Strings

  // ---------------------------------------------------------------------
  // JavaScript string primitives
  // ---------------------------------------------------------------------

  /** White space as String.prototype.trim() and the regular expression class \s see it. */
  predicate IsJsSpace(c: char)
  {
    c == ' ' || c == '\t' || c == '\n' || c == '\r' || c == '\U{000B}' || c == '\U{000C}'
    || c == '\U{00A0}' || c == '\U{1680}' || ('\U{2000}' <= c <= '\U{200A}')
    || c == '\U{2028}' || c == '\U{2029}' || c == '\U{202F}' || c == '\U{205F}'
    || c == '\U{3000}' || c == '\U{FEFF}'
  }

  function JsTrimStart(s: string): (r: string)
    ensures |r| <= |s| && s[|s| - |r|..] == r
    ensures r == [] || !IsJsSpace(r[0])
    ensures forall i :: 0 <= i < |s| - |r| ==> IsJsSpace(s[i])
  {
    if |s| > 0 && IsJsSpace(s[0]) then JsTrimStart(s[1..]) else s
  }

  function JsTrimEnd(s: string): (r: string)
    ensures |r| <= |s| && s[..|r|] == r
    ensures r == [] || !IsJsSpace(r[|r| - 1])
    ensures forall i :: |r| <= i < |s| ==> IsJsSpace(s[i])
  {
    if |s| > 0 && IsJsSpace(s[|s| - 1]) then JsTrimEnd(s[..|s| - 1]) else s
  }

  /** String.prototype.trim(): leading and trailing white space removed. */
  function JsTrim(s: string): (r: string)
    ensures |r| <= |s|
    ensures r == [] || (!IsJsSpace(r[0]) && !IsJsSpace(r[|r| - 1]))
    ensures forall c :: c in r ==> c in s
  {
    var t := JsTrimStart(s);
    var r := JsTrimEnd(t);
    assert forall i :: 0 <= i < |r| ==> r[i] == s[|s| - |t| + i];
    r
  }

  /** trim() leaves nothing exactly when the text is all white space. */
  lemma JsTrimEmptyIffBlank(s: string)
    ensures JsTrim(s) == [] <==> forall i :: 0 <= i < |s| ==> IsJsSpace(s[i])
  {
    var t := JsTrimStart(s);
    if JsTrim(s) == [] {
      assert |t| == 0;
      assert forall i :: 0 <= i < |s| ==> IsJsSpace(s[i]);
    } else {
      var r := JsTrim(s);
      assert t[..|r|] == r && s[|s| - |t|..] == t;
      assert s[|s| - |t|] == r[0];
    }
  }

  /** Text that trim() leaves alone. */
  predicate IsJsTrimmed(s: string)
  {
    s == [] || (!IsJsSpace(s[0]) && !IsJsSpace(s[|s| - 1]))
  }

  /** trim() is idempotent. */
  lemma JsTrimIdempotent(s: string)
    ensures IsJsTrimmed(JsTrim(s))
    ensures JsTrim(JsTrim(s)) == JsTrim(s)
  {
    var r := JsTrim(s);
    if r != [] {
      assert JsTrimStart(r) == r;
    }
  }

  /** toLowerCase() on one character; only the ASCII letters are mapped. */
  function LowerChar(c: char): char
  {
    if 'A' <= c <= 'Z' then (c as int + 32) as char else c
  }

  function ToLower(s: string): (r: string)
    ensures |r| == |s|
    ensures forall i :: 0 <= i < |s| ==> r[i] == LowerChar(s[i])
  {
    if |s| == 0 then [] else [LowerChar(s[0])] + ToLower(s[1..])
  }

  /** No ASCII capital letter in `s`. */
  predicate IsLower(s: string)
  {
    forall i :: 0 <= i < |s| ==> !('A' <= s[i] <= 'Z')
  }

  /** Lower-casing is idempotent and yields lower-case text. */
  lemma ToLowerIdempotent(s: string)
    ensures IsLower(ToLower(s))
    ensures ToLower(ToLower(s)) == ToLower(s)
  {
  }

  /** The pieces of `s` between commas: "a,,b" has three, "" has one. */
  function SplitOnComma(s: string): (r: seq<string>)
    ensures |r| > 0
    ensures forall i :: 0 <= i < |r| ==> ',' !in r[i]
    ensures JoinOnComma(r) == s
    decreases |s|
  {
    match IndexOf(s, ',')
    case None =>
      assert forall i :: 0 <= i < |s| ==> s[i] != ',';
      [s]
    case Some(k) =>
      assert !ContainsChar(s[..k], ',');
      assert forall i :: 0 <= i < k ==> s[..k][i] != ',';
      var rest := SplitOnComma(s[k + 1..]);
      assert s == s[..k] + "," + s[k + 1..];
      [s[..k]] + rest
  }

  /** Array.prototype.join(","): the pieces with a comma between neighbours. */
  function JoinOnComma(parts: seq<string>): string
  {
    if |parts| == 0 then ""
    else if |parts| == 1 then parts[0]
    else parts[0] + "," + JoinOnComma(parts[1..])
  }

  /** Splitting undoes joining when no piece holds a comma. */
  lemma {:induction false} SplitOfJoin(parts: seq<string>)
    requires |parts| > 0
    requires forall i :: 0 <= i < |parts| ==> ',' !in parts[i]
    ensures SplitOnComma(JoinOnComma(parts)) == parts
  {
    var p := parts[0];
    if |parts| == 1 {
      assert !ContainsChar(p, ',');
    } else {
      var s := JoinOnComma(parts);
      var rest := JoinOnComma(parts[1..]);
      assert s == p + "," + rest;
      assert s[|p|] == ',';
      assert forall j :: 0 <= j < |p| ==> s[j] == p[j];
      IndexOfIs(s, ',', |p|);
      assert s[..|p|] == p && s[|p| + 1..] == rest;
      SplitOfJoin(parts[1..]);
    }
  }

  function TrimAll(parts: seq<string>): (r: seq<string>)
    ensures |r| == |parts|
    ensures forall i :: 0 <= i < |parts| ==> r[i] == JsTrim(parts[i])
  {
    if |parts| == 0 then [] else [JsTrim(parts[0])] + TrimAll(parts[1..])
  }

  /**
   * The terms of a trimmed filter field: lower-cased and split with the
   * regular expression /\s*,\s*\/.  On a trimmed string that regular
   * expression removes exactly the white space around each comma, so the
   * terms are the comma-separated pieces, each trimmed.
   */
  function Terms(field: string): (r: seq<string>)
    ensures |r| > 0
    ensures forall i :: 0 <= i < |r| ==> ',' !in r[i] && IsLower(r[i]) && IsJsTrimmed(r[i])
  {
    var lower := ToLower(field);
    var parts := SplitOnComma(lower);
    var r := TrimAll(parts);
    forall i | 0 <= i < |r|
      ensures ',' !in r[i] && IsLower(r[i]) && IsJsTrimmed(r[i])
    {
      LowerPieces(lower, parts, i);
    }
    r
  }

  /** Every piece between commas of lower-case text is lower-case, and so is its trim. */
  lemma LowerPieces(lower: string, parts: seq<string>, i: nat)
    requires IsLower(lower) && i < |parts|
    requires JoinOnComma(parts) == lower
    ensures IsLower(JsTrim(parts[i]))
  {
    JoinedPieceChars(parts, i);
    var t := JsTrim(parts[i]);
    forall k | 0 <= k < |t|
      ensures !('A' <= t[k] <= 'Z')
    {
      assert t[k] in parts[i];
    }
  }

  /** Each character of a piece occurs in the joined text. */
  lemma {:induction false} JoinedPieceChars(parts: seq<string>, i: nat)
    requires i < |parts|
    ensures forall c :: c in parts[i] ==> c in JoinOnComma(parts)
  {
    if |parts| > 1 {
      if i == 0 {
        assert JoinOnComma(parts) == parts[0] + "," + JoinOnComma(parts[1..]);
      } else {
        JoinedPieceChars(parts[1..], i - 1);
        assert JoinOnComma(parts) == parts[0] + "," + JoinOnComma(parts[1..]);
      }
    }
  }

  /** Text compared as JavaScript's `<=` compares strings. */
  predicate LessEq(a: string, b: string)
  {
    a == b || Less(a, b)
  }

  // ---------------------------------------------------------------------
  // Evaluators
  // ---------------------------------------------------------------------

  /** One check box or radio button of a panel or a cell. */
  datatype Choice = Choice(value: string, checked: bool)

  /** What an evaluator reads from one table cell. */
  datatype Cell = Cell(
    text: string,            // the cell's text (textContent, also used for innerHTML)
    vals: seq<string>,       // the values of its hidden "val" inputs, in document order
    checks: seq<bool>)       // the states of its check boxes, in document order

  /** The test a generator builds from a panel (a closure in the script). */
  datatype Evaluator =
    | PassAll                // Prototype.K: every cell passes
    | Names(includeGiven: bool, excludeGiven: bool, includeTerms: seq<string>, excludeTerms: seq<string>)
    | Dates(before: string, after: string)
    | Selected(exclude: bool, values: seq<string>)
    | Outliers
    | Numbers(min: string, max: string)

  /** A generator's result: the evaluator, and whether it switched its panel off. */
  datatype Generated = Generated(evaluator: Evaluator, switchOff: bool)

  /** Some non-empty term occurs in the text. */
  predicate MatchesSome(terms: seq<string>, text: string)
  {
    |terms| > 0 && ((terms[0] != [] && Contains(text, terms[0])) || MatchesSome(terms[1..], text))
  }

  lemma {:induction false} MatchesSomeIff(terms: seq<string>, text: string)
    ensures MatchesSome(terms, text) <==> exists i :: 0 <= i < |terms| && terms[i] != [] && Contains(text, terms[i])
  {
    if |terms| > 0 {
      MatchesSomeIff(terms[1..], text);
      assert forall i :: 1 <= i < |terms| ==> terms[i] == terms[1..][i - 1];
    }
  }

  /** The test matchNames builds, applied to a cell's text. */
  predicate NamesAccepts(e: Evaluator, text: string)
    requires e.Names?
  {
    var t := ToLower(text);
    !(e.excludeGiven && MatchesSome(e.excludeTerms, t)) && (!e.includeGiven || MatchesSome(e.includeTerms, t))
  }

  /** The test matchDates builds, applied to a cell's first hidden value. */
  predicate DatesAccepts(before: string, after: string, val: string)
  {
    !(before != [] && LessEq(before, val)) && !(after != [] && LessEq(val, after))
  }

  /** Array.prototype.find: the first of `vals` that is among `values`. */
  function FirstMatch(vals: seq<string>, values: seq<string>): (r: Option<string>)
    ensures r.None? <==> forall i :: 0 <= i < |vals| ==> vals[i] !in values
    ensures r.Some? ==> r.value in vals && r.value in values
  {
    if |vals| == 0 then None
    else if vals[0] in values then Some(vals[0])
    else FirstMatch(vals[1..], values)
  }

  /** The test matchSelectedValues builds: `!match == exclude`. */
  predicate SelectedAccepts(exclude: bool, values: seq<string>, vals: seq<string>)
  {
    FirstMatch(vals, values).None? == exclude
  }

  /** The cell holds what the evaluator reads: a hidden value for dates, a check box for outliers. */
  predicate Readable(e: Evaluator, c: Cell)
  {
    (e.Dates? ==> |c.vals| > 0) && (e.Outliers? ==> |c.checks| > 0)
  }

  /**
   * Calling an evaluator on a cell.  The numeric comparison of matchNumbers
   * (parseFloat on the bounds and the cell) is the parameter `inRange`.
   */
  predicate Accepts(e: Evaluator, c: Cell, inRange: (string, string, string) -> bool)
    requires Readable(e, c)
  {
    match e
    case PassAll => true
    case Names(_, _, _, _) => NamesAccepts(e, c.text)
    case Dates(before, after) => DatesAccepts(before, after, c.vals[0])
    case Selected(exclude, values) => SelectedAccepts(exclude, values, c.vals)
    case Outliers => !c.checks[0]
    case Numbers(min, max) => inRange(min, max, c.text)
  }

  // ---------------------------------------------------------------------
  // Generators
  // ---------------------------------------------------------------------

  /** matchNames: the trimmed include and exclude fields; both blank switches the filter off. */
  function MatchNames(includeField: string, excludeField: string): (r: Generated)
    ensures r.switchOff <==> JsTrim(includeField) == [] && JsTrim(excludeField) == []
    ensures r.switchOff ==> r.evaluator == PassAll
    ensures !r.switchOff ==> r.evaluator.Names?
  {
    var inc := JsTrim(includeField);
    var exc := JsTrim(excludeField);
    if inc == [] && exc == [] then Generated(PassAll, true)
    else Generated(Names(inc != [], exc != [], Terms(inc), Terms(exc)), false)
  }

  /** matchDates: the trimmed bounds; both blank switches the filter off. */
  function MatchDates(beforeField: string, afterField: string): (r: Generated)
    ensures r.switchOff <==> JsTrim(beforeField) == [] && JsTrim(afterField) == []
    ensures r.switchOff ==> r.evaluator == PassAll
    ensures !r.switchOff ==> r.evaluator == Dates(JsTrim(beforeField), JsTrim(afterField))
  {
    var before := JsTrim(beforeField);
    var after := JsTrim(afterField);
    if before == [] && after == [] then Generated(PassAll, true)
    else Generated(Dates(before, after), false)
  }

  /** matchNumbers: the trimmed bounds; both blank switches the filter off. */
  function MatchNumbers(minField: string, maxField: string): (r: Generated)
    ensures r.switchOff <==> JsTrim(minField) == [] && JsTrim(maxField) == []
    ensures r.switchOff ==> r.evaluator == PassAll
    ensures !r.switchOff ==> r.evaluator == Numbers(JsTrim(minField), JsTrim(maxField))
  {
    var min := JsTrim(minField);
    var max := JsTrim(maxField);
    if min == [] && max == [] then Generated(PassAll, true)
    else Generated(Numbers(min, max), false)
  }

  /** getRadioVal: the value of the first checked radio button, if any. */
  function RadioValue(radios: seq<Choice>): (r: Option<string>)
    ensures r.None? <==> forall i :: 0 <= i < |radios| ==> !radios[i].checked
    ensures r.Some? ==> exists i :: 0 <= i < |radios| && radios[i].checked && radios[i].value == r.value
  {
    if |radios| == 0 then None
    else if radios[0].checked then Some(radios[0].value)
    else RadioValue(radios[1..])
  }

  /** The values of the checked boxes, in document order (findAll, then pluck). */
  function CheckedValues(boxes: seq<Choice>): (r: seq<string>)
    ensures forall v :: v in r <==> exists i :: 0 <= i < |boxes| && boxes[i].checked && boxes[i].value == v
  {
    if |boxes| == 0 then []
    else
      var rest := CheckedValues(boxes[1..]);
      assert forall i :: 1 <= i < |boxes| ==> boxes[i] == boxes[1..][i - 1];
      if boxes[0].checked then [boxes[0].value] + rest else rest
  }

  /** matchSelectedValues: excludes unless the radio button checked first says "include". */
  function MatchSelectedValues(radios: seq<Choice>, boxes: seq<Choice>): (r: Generated)
    ensures !r.switchOff && r.evaluator.Selected?
    ensures r.evaluator.exclude <==> RadioValue(radios) != Some("include")
    ensures forall v :: v in r.evaluator.values <==>
      exists i :: 0 <= i < |boxes| && boxes[i].checked && boxes[i].value == v
  {
    Generated(Selected(RadioValue(radios) != Some("include"), CheckedValues(boxes)), false)
  }

  // ---------------------------------------------------------------------
  // What the evaluators mean
  // ---------------------------------------------------------------------

  /** A cell whose lower-cased text contains a non-empty exclude term is rejected. */
  lemma ExcludedTermRejects(includeField: string, excludeField: string, text: string)
    requires !MatchNames(includeField, excludeField).switchOff
    requires MatchesSome(Terms(JsTrim(excludeField)), ToLower(text))
    ensures !NamesAccepts(MatchNames(includeField, excludeField).evaluator, text)
  {
    var inc, exc := JsTrim(includeField), JsTrim(excludeField);
    assert exc != [] by {
      if exc == [] {
        BlankTerms();
      }
    }
    assert MatchNames(includeField, excludeField).evaluator == Names(inc != [], true, Terms(inc), Terms(exc));
  }

  /** With no include text a cell passes exactly when it contains no non-empty exclude term. */
  lemma IncludeBlankMeaning(includeField: string, excludeField: string, text: string)
    requires !MatchNames(includeField, excludeField).switchOff
    requires JsTrim(includeField) == []
    ensures NamesAccepts(MatchNames(includeField, excludeField).evaluator, text) <==>
      !MatchesSome(Terms(JsTrim(excludeField)), ToLower(text))
  {
    BlankTerms();
    var inc, exc := JsTrim(includeField), JsTrim(excludeField);
    assert MatchNames(includeField, excludeField).evaluator == Names(false, true, Terms(inc), Terms(exc));
  }

  /**
   * With include text a cell passes exactly when it contains some non-empty
   * include term and no non-empty exclude term.
   */
  lemma IncludeGivenMeaning(includeField: string, excludeField: string, text: string)
    requires JsTrim(includeField) != []
    ensures NamesAccepts(MatchNames(includeField, excludeField).evaluator, text) <==>
      !MatchesSome(Terms(JsTrim(excludeField)), ToLower(text)) && MatchesSome(Terms(JsTrim(includeField)), ToLower(text))
  {
    if JsTrim(excludeField) == [] {
      IncludeOnlyMeaning(includeField, excludeField, text);
    } else {
      var inc, exc := JsTrim(includeField), JsTrim(excludeField);
      assert MatchNames(includeField, excludeField).evaluator == Names(true, true, Terms(inc), Terms(exc));
    }
  }

  lemma IncludeOnlyMeaning(includeField: string, excludeField: string, text: string)
    requires JsTrim(includeField) != [] && JsTrim(excludeField) == []
    ensures NamesAccepts(MatchNames(includeField, excludeField).evaluator, text) <==>
      !MatchesSome(Terms(JsTrim(excludeField)), ToLower(text)) && MatchesSome(Terms(JsTrim(includeField)), ToLower(text))
  {
    BlankTerms();
    var inc, exc := JsTrim(includeField), JsTrim(excludeField);
    assert MatchNames(includeField, excludeField).evaluator == Names(true, false, Terms(inc), Terms(exc));
    assert Terms(exc)[1..] == [];
  }

  /** A blank field has the one term "": "".split(...) is [""]. */
  lemma BlankTerms()
    ensures Terms([]) == [[]]
  {
    assert ToLower([]) == [];
    assert IndexOf([], ',') == None;
    assert SplitOnComma([]) == [[]];
  }

  /** Empty terms never match: an include field of commas only rejects every cell. */
  lemma CommasOnlyRejectAll(includeField: string, excludeField: string, text: string)
    requires JsTrim(includeField) != []
    requires forall i :: 0 <= i < |Terms(JsTrim(includeField))| ==> Terms(JsTrim(includeField))[i] == []
    ensures !NamesAccepts(MatchNames(includeField, excludeField).evaluator, text)
  {
    BlankTerms();
    var inc, exc := JsTrim(includeField), JsTrim(excludeField);
    assert MatchNames(includeField, excludeField).evaluator == Names(true, exc != [], Terms(inc), Terms(exc));
    MatchesSomeIff(Terms(inc), ToLower(text));
  }

  /** Matching ignores the case of ASCII letters in the cell's text. */
  lemma NamesCaseInsensitive(e: Evaluator, text: string)
    requires e.Names?
    ensures NamesAccepts(e, ToLower(text)) == NamesAccepts(e, text)
  {
    ToLowerIdempotent(text);
  }

  /**
   * The date filter accepts exactly the values strictly after the "after"
   * bound and strictly before the "before" bound (blank bounds are open),
   * in the string order JavaScript compares with.
   */
  lemma {:induction false} DatesAcceptIffBetween(before: string, after: string, val: string)
    ensures DatesAccepts(before, after, val) <==>
      (before == [] || Less(val, before)) && (after == [] || Less(after, val))
  {
    LessTotal(before, val);
    LessTotal(val, after);
    if Less(before, val) { LessAsymmetric(before, val); }
    if Less(val, after) { LessAsymmetric(val, after); }
    LessIrreflexive(val);
  }

  lemma LessAsymmetric(a: string, b: string)
    requires Less(a, b)
    ensures !Less(b, a)
  {
    if Less(b, a) {
      LessTransitive(a, b, a);
      LessIrreflexive(a);
    }
  }

  /** Bounds that cross ("after" not below "before") leave no date that passes. */
  lemma CrossedDatesRejectAll(before: string, after: string, val: string)
    requires before != [] && after != [] && !Less(after, before)
    ensures !DatesAccepts(before, after, val)
  {
    DatesAcceptIffBetween(before, after, val);
    if Less(val, before) && Less(after, val) {
      LessTransitive(after, val, before);
    }
  }

  /**
   * The selected-values filter: in "include" mode a cell passes exactly when
   * one of its values is selected; in every other mode exactly when none is.
   */
  lemma SelectedFilterMeaning(radios: seq<Choice>, boxes: seq<Choice>, vals: seq<string>)
    ensures var e := MatchSelectedValues(radios, boxes).evaluator;
      var hit := exists i :: 0 <= i < |vals| && vals[i] in e.values;
      (RadioValue(radios) == Some("include") ==> (SelectedAccepts(e.exclude, e.values, vals) <==> hit))
      && (RadioValue(radios) != Some("include") ==> (SelectedAccepts(e.exclude, e.values, vals) <==> !hit))
  {
  }

  // ---------------------------------------------------------------------
  // Running an evaluator
  // ---------------------------------------------------------------------

  /** The first non-empty term that indexOf finds in the text, scanning from `i` on. */
  lemma MatchesSomeStep(terms: seq<string>, text: string, i: nat)
    requires i < |terms|
    ensures MatchesSome(terms[i..], text) <==>
      (terms[i] != [] && Contains(text, terms[i])) || MatchesSome(terms[i + 1..], text)
  {
    assert terms[i..][1..] == terms[i + 1..];
  }

  /**
   * The closure matchNames returns, as the script runs it: the exclude terms
   * are scanned only when exclude text was given, then the include terms.
   */
  method NamesTest(e: Evaluator, text: string) returns (accept: bool)
    requires e.Names?
    ensures accept == NamesAccepts(e, text)
  {
    var t := ToLower(text);
    if e.excludeGiven {
      var i := 0;
      while i < |e.excludeTerms|
        invariant 0 <= i <= |e.excludeTerms|
        invariant MatchesSome(e.excludeTerms, t) == MatchesSome(e.excludeTerms[i..], t)
      {
        MatchesSomeStep(e.excludeTerms, t, i);
        if e.excludeTerms[i] != [] && IndexOfString(t, e.excludeTerms[i]).Some? {
          return false;
        }
        i := i + 1;
      }
    }
    if !e.includeGiven {
      return true;
    }
    var i := 0;
    while i < |e.includeTerms|
      invariant 0 <= i <= |e.includeTerms|
      invariant MatchesSome(e.includeTerms, t) == MatchesSome(e.includeTerms[i..], t)
    {
      MatchesSomeStep(e.includeTerms, t, i);
      if e.includeTerms[i] != [] && IndexOfString(t, e.includeTerms[i]).Some? {
        return true;
      }
      i := i + 1;
    }
    return false;
  }

  /** Calling an evaluator on a cell. */
  method Test(e: Evaluator, c: Cell, inRange: (string, string, string) -> bool) returns (accept: bool)
    requires Readable(e, c)
    ensures accept == Accepts(e, c, inRange)
  {
    if e.Names? {
      accept := NamesTest(e, c.text);
    } else {
      accept := Accepts(e, c, inRange);
    }
  }

  // ---------------------------------------------------------------------
  // Filter panels
  // ---------------------------------------------------------------------

  /** The generator the script's `cols` table holds for a filter ID; numbers by default. */
  datatype Generator = NamesGen | DatesGen | SelectedGen | OutliersGen | NumbersGen

  function GeneratorOf(id: string): Generator
  {
    if id == "proj" || id == "label" then SelectedGen
    else if id == "task" then NamesGen
    else if id == "date" then DatesGen
    else if id == "outlier" then OutliersGen
    else NumbersGen
  }

  /** The top-level cell of the filter row that holds one filter's controls. */
  datatype Panel = Panel(
    elementID: string,              // the element's id, "<filter ID>Filter"
    active: bool,                   // class "filterActive": the panel is open
    enabled: bool,                  // class "filterEnabled"
    enabledValue: string,           // the hidden "<filter ID>Enabled" input (its second input)
    includeField: string,           // text input "taskInclude"
    excludeField: string,           // text input "taskExclude"
    beforeField: string,            // text input "dateBefore"
    afterField: string,             // text input "dateAfter"
    minField: string,               // text input "<filter ID>Min"
    maxField: string,               // text input "<filter ID>Max"
    logic: seq<Choice>,             // radio buttons "<filter ID>Logic"
    choices: seq<Choice>)           // check boxes "<filter ID>Val"

  /** Calling the column's generator on its panel. */
  function Generate(id: string, p: Panel): (r: Generated)
    ensures r.evaluator.Dates? ==> GeneratorOf(id) == DatesGen
    ensures r.evaluator.Outliers? ==> GeneratorOf(id) == OutliersGen
    ensures GeneratorOf(id) == SelectedGen || GeneratorOf(id) == OutliersGen ==> !r.switchOff
  {
    match GeneratorOf(id)
    case NamesGen => MatchNames(p.includeField, p.excludeField)
    case DatesGen => MatchDates(p.beforeField, p.afterField)
    case SelectedGen => MatchSelectedValues(p.logic, p.choices)
    case OutliersGen => Generated(Outliers, false)
    case NumbersGen => MatchNumbers(p.minField, p.maxField)
  }

  /** filterOffTd: closed, not enabled, enabled input cleared. */
  function FilterOff(p: Panel): (r: Panel)
    ensures !r.active && !r.enabled && r.enabledValue == []
    ensures r.(active := p.active, enabled := p.enabled, enabledValue := p.enabledValue) == p
  {
    p.(active := false, enabled := false, enabledValue := "")
  }

  /** filterOnTd: closed, enabled, enabled input "true". */
  function FilterOn(p: Panel): (r: Panel)
    ensures !r.active && r.enabled && r.enabledValue != []
    ensures r.(active := p.active, enabled := p.enabled, enabledValue := p.enabledValue) == p
  {
    p.(active := false, enabled := true, enabledValue := "true")
  }

  /** $(elementID) among the panels: the first with that id. */
  function PanelIndex(panels: seq<Panel>, elementID: string): (r: Option<nat>)
    ensures r.None? <==> forall i :: 0 <= i < |panels| ==> panels[i].elementID != elementID
    ensures r.Some? ==> r.value < |panels| && panels[r.value].elementID == elementID
    ensures r.Some? ==> forall i :: 0 <= i < r.value ==> panels[i].elementID != elementID
  {
    if |panels| == 0 then None
    else if panels[0].elementID == elementID then Some(0)
    else
      var rest := PanelIndex(panels[1..], elementID);
      assert forall i :: 1 <= i < |panels| ==> panels[i] == panels[1..][i - 1];
      if rest.None? then None else Some(rest.value + 1)
  }

  /** The same element ids in the same order. */
  predicate SameElements(ps: seq<Panel>, qs: seq<Panel>)
  {
    |ps| == |qs| && forall i :: 0 <= i < |ps| ==> ps[i].elementID == qs[i].elementID
  }

  /** Lookup by id sees only the element ids. */
  lemma {:induction false} PanelIndexOfSame(ps: seq<Panel>, qs: seq<Panel>, elementID: string)
    requires SameElements(ps, qs)
    ensures PanelIndex(ps, elementID) == PanelIndex(qs, elementID)
  {
    if |ps| > 0 && ps[0].elementID != elementID {
      PanelIndexOfSame(ps[1..], qs[1..], elementID);
    }
  }

  /** closeFilters: no panel open, nothing else changed. */
  function Closed(panels: seq<Panel>): (r: seq<Panel>)
    ensures |r| == |panels|
    ensures forall i :: 0 <= i < |r| ==> !r[i].active && r[i].(active := panels[i].active) == panels[i]
  {
    if |panels| == 0 then []
    else [panels[0].(active := false)] + Closed(panels[1..])
  }

  /** filterClick on panel k: all closed, then k opened unless it was open. */
  function Clicked(panels: seq<Panel>, k: nat): (r: seq<Panel>)
    requires k < |panels|
    ensures |r| == |panels|
    ensures forall i :: 0 <= i < |r| ==> r[i].active == (i == k && !panels[k].active)
    ensures forall i :: 0 <= i < |r| ==> r[i].(active := panels[i].active) == panels[i]
  {
    var closed := Closed(panels);
    if panels[k].active then closed else closed[k := closed[k].(active := true)]
  }

  /** A second click on a panel closes it again: two clicks leave every panel closed. */
  lemma ClickTwiceCloses(panels: seq<Panel>, k: nat)
    requires k < |panels| && !panels[k].active
    ensures Clicked(Clicked(panels, k), k) == Closed(panels)
  {
    var twice, closed := Clicked(Clicked(panels, k), k), Closed(panels);
    forall i | 0 <= i < |panels|
      ensures twice[i] == closed[i]
    {
      assert twice[i].(active := panels[i].active) == panels[i];
    }
  }

  /** At most one panel is open after a click. */
  lemma ClickOpensAtMostOne(panels: seq<Panel>, k: nat, i: nat, j: nat)
    requires k < |panels| && i < |panels| && j < |panels|
    requires Clicked(panels, k)[i].active && Clicked(panels, k)[j].active
    ensures i == j == k
  {
  }

  // ---------------------------------------------------------------------
  // Building the evaluators
  // ---------------------------------------------------------------------

  /**
   * createFilterEvaluators, from filter `ids` on: a filter whose panel is
   * missing gets no entry; a disabled one passes everything; an enabled one
   * gets its generator's evaluator, and a generator that finds its fields
   * blank switches its panel off.  Result: the filters and the panels.
   */
  function BuildFilters(ids: seq<string>, panels: seq<Panel>, filters: map<string, Evaluator>)
    : (r: (map<string, Evaluator>, seq<Panel>))
    ensures SameElements(panels, r.1)
    decreases |ids|
  {
    if |ids| == 0 then (filters, panels)
    else
      var id := ids[0];
      match PanelIndex(panels, id + "Filter")
      case None => BuildFilters(ids[1..], panels, filters)
      case Some(k) =>
        if panels[k].enabledValue != [] then
          var g := Generate(id, panels[k]);
          var next := if g.switchOff then panels[k := FilterOff(panels[k])] else panels;
          BuildFilters(ids[1..], next, filters[id := g.evaluator])
        else
          BuildFilters(ids[1..], panels, filters[id := PassAll])
  }

  lemma SuffixCancels(a: string, b: string, s: string)
    requires a + s == b + s
    ensures a == b
  {
    assert a == (a + s)[..|a|];
    assert b == (b + s)[..|b|];
  }

  lemma PrefixCancels(s: string, a: string, b: string)
    requires s + a == s + b
    ensures a == b
  {
    assert a == (s + a)[|s|..];
    assert b == (s + b)[|s|..];
  }

  /** Filters the loop never reaches keep their entries. */
  lemma {:induction false} BuildFiltersOutside(ids: seq<string>, panels: seq<Panel>, filters: map<string, Evaluator>, id: string)
    requires id !in ids
    ensures id in BuildFilters(ids, panels, filters).0 <==> id in filters
    ensures id in filters ==> BuildFilters(ids, panels, filters).0[id] == filters[id]
    decreases |ids|
  {
    if |ids| > 0 {
      var k := PanelIndex(panels, ids[0] + "Filter");
      if k.Some? && panels[k.value].enabledValue != [] {
        var g := Generate(ids[0], panels[k.value]);
        var next := if g.switchOff then panels[k.value := FilterOff(panels[k.value])] else panels;
        BuildFiltersOutside(ids[1..], next, filters[ids[0] := g.evaluator], id);
      } else if k.Some? {
        BuildFiltersOutside(ids[1..], panels, filters[ids[0] := PassAll], id);
      } else {
        BuildFiltersOutside(ids[1..], panels, filters, id);
      }
    }
  }

  /**
   * For distinct filter IDs: a filter with a panel gets the evaluator its
   * panel's generator builds when the panel is enabled and the identity
   * (PassAll) when it is disabled; a filter without a panel gets no entry.
   */
  lemma {:induction false} BuildFiltersEntry(ids: seq<string>, panels: seq<Panel>, filters: map<string, Evaluator>, id: string)
    requires forall i, j :: 0 <= i < j < |ids| ==> ids[i] != ids[j]
    requires id in ids
    ensures var r := BuildFilters(ids, panels, filters).0;
      match PanelIndex(panels, id + "Filter")
      case None => (id in r <==> id in filters) && (id in filters ==> r[id] == filters[id])
      case Some(k) => id in r && r[id] == (if panels[k].enabledValue != [] then Generate(id, panels[k]).evaluator else PassAll)
    decreases |ids|
  {
    var k := PanelIndex(panels, ids[0] + "Filter");
    if ids[0] == id {
      BuildFiltersFirst(ids, panels, filters);
    } else {
      assert id in ids[1..];
      assert forall i, j :: 0 <= i < j < |ids[1..]| ==> ids[1..][i] != ids[1..][j] by {
        assert forall i :: 0 <= i < |ids[1..]| ==> ids[1..][i] == ids[i + 1];
      }
      var mine := PanelIndex(panels, id + "Filter");
      if k.Some? && panels[k.value].enabledValue != [] {
        var g := Generate(ids[0], panels[k.value]);
        var next := if g.switchOff then panels[k.value := FilterOff(panels[k.value])] else panels;
        PanelIndexOfSame(panels, next, id + "Filter");
        if mine.Some? && mine.value == k.value {
          SuffixCancels(id, ids[0], "Filter");
        }
        BuildFiltersEntry(ids[1..], next, filters[ids[0] := g.evaluator], id);
      } else if k.Some? {
        BuildFiltersEntry(ids[1..], panels, filters[ids[0] := PassAll], id);
      } else {
        BuildFiltersEntry(ids[1..], panels, filters, id);
      }
    }
  }

  /** The entry of the first filter ID, when it does not occur again. */
  lemma BuildFiltersFirst(ids: seq<string>, panels: seq<Panel>, filters: map<string, Evaluator>)
    requires |ids| > 0 && ids[0] !in ids[1..]
    ensures var r := BuildFilters(ids, panels, filters).0;
      match PanelIndex(panels, ids[0] + "Filter")
      case None => (ids[0] in r <==> ids[0] in filters) && (ids[0] in filters ==> r[ids[0]] == filters[ids[0]])
      case Some(k) => ids[0] in r && r[ids[0]] == (if panels[k].enabledValue != [] then Generate(ids[0], panels[k]).evaluator else PassAll)
  {
    var id := ids[0];
    var k := PanelIndex(panels, id + "Filter");
    if k.Some? && panels[k.value].enabledValue != [] {
      var g := Generate(id, panels[k.value]);
      var next := if g.switchOff then panels[k.value := FilterOff(panels[k.value])] else panels;
      BuildFiltersOutside(ids[1..], next, filters[id := g.evaluator], id);
    } else if k.Some? {
      BuildFiltersOutside(ids[1..], panels, filters[id := PassAll], id);
    } else {
      BuildFiltersOutside(ids[1..], panels, filters, id);
    }
  }

  /** Date evaluators belong to date columns and outlier evaluators to outlier columns. */
  predicate KindsMatch(filters: map<string, Evaluator>)
  {
    forall id :: id in filters ==>
      (filters[id].Dates? ==> GeneratorOf(id) == DatesGen) && (filters[id].Outliers? ==> GeneratorOf(id) == OutliersGen)
  }

  lemma {:induction false} BuildFiltersKinds(ids: seq<string>, panels: seq<Panel>, filters: map<string, Evaluator>)
    requires KindsMatch(filters)
    ensures KindsMatch(BuildFilters(ids, panels, filters).0)
    ensures forall id :: id in BuildFilters(ids, panels, filters).0 ==> id in filters || id in ids
    decreases |ids|
  {
    if |ids| > 0 {
      var k := PanelIndex(panels, ids[0] + "Filter");
      if k.Some? && panels[k.value].enabledValue != [] {
        var g := Generate(ids[0], panels[k.value]);
        var next := if g.switchOff then panels[k.value := FilterOff(panels[k.value])] else panels;
        BuildFiltersKinds(ids[1..], next, filters[ids[0] := g.evaluator]);
      } else if k.Some? {
        BuildFiltersKinds(ids[1..], panels, filters[ids[0] := PassAll]);
      } else {
        BuildFiltersKinds(ids[1..], panels, filters);
      }
    }
  }

  // ---------------------------------------------------------------------
  // Evaluating the rows
  // ---------------------------------------------------------------------

  /** The filter `id` is present, the row has a cell for it, and the filter rejects that cell. */
  predicate Rejects(filters: map<string, Evaluator>, cells: map<string, Cell>, rowID: string, id: string,
                    inRange: (string, string, string) -> bool)
  {
    var key := rowID + "." + id;
    id in filters && key in cells && Readable(filters[id], cells[key]) && !Accepts(filters[id], cells[key], inRange)
  }

  /** Some filter rejects one of the row's cells. */
  predicate RowRejected(filters: map<string, Evaluator>, cells: map<string, Cell>, ids: seq<string>, rowID: string,
                        inRange: (string, string, string) -> bool)
  {
    exists j :: 0 <= j < |ids| && Rejects(filters, cells, rowID, ids[j], inRange)
  }

  /** Every cell a filter reads holds what that filter reads. */
  predicate CellsReadable(filters: map<string, Evaluator>, cells: map<string, Cell>, ids: seq<string>, rowIDs: seq<string>)
  {
    forall i, j :: 0 <= i < |rowIDs| && 0 <= j < |ids| && ids[j] in filters && rowIDs[i] + "." + ids[j] in cells ==>
      Readable(filters[ids[j]], cells[rowIDs[i] + "." + ids[j]])
  }

  /** The cell marks after one row's pass over the filters `ids`, in order. */
  function MarkRow(marks: set<string>, filters: map<string, Evaluator>, cells: map<string, Cell>, ids: seq<string>,
                   rowID: string, inRange: (string, string, string) -> bool): set<string>
    decreases |ids|
  {
    if |ids| == 0 then marks
    else
      var key := rowID + "." + ids[0];
      var next :=
        if ids[0] in filters && key in cells && Readable(filters[ids[0]], cells[key]) then
          (if Accepts(filters[ids[0]], cells[key], inRange) then marks - {key} else marks + {key})
        else marks;
      MarkRow(next, filters, cells, ids[1..], rowID, inRange)
  }

  /** The cell marks after the passes over `rowIDs`, in order. */
  function MarkRows(marks: set<string>, filters: map<string, Evaluator>, cells: map<string, Cell>, ids: seq<string>,
                    rowIDs: seq<string>, inRange: (string, string, string) -> bool): set<string>
    decreases |rowIDs|
  {
    if |rowIDs| == 0 then marks
    else MarkRows(MarkRow(marks, filters, cells, ids, rowIDs[0], inRange), filters, cells, ids, rowIDs[1..], inRange)
  }

  /** A cell no filter visits keeps its mark. */
  lemma {:induction false} MarkRowsUnvisited(marks: set<string>, filters: map<string, Evaluator>, cells: map<string, Cell>,
                                             ids: seq<string>, rowIDs: seq<string>, inRange: (string, string, string) -> bool, key: string)
    requires forall i, j :: 0 <= i < |rowIDs| && 0 <= j < |ids| ==> rowIDs[i] + "." + ids[j] != key
    ensures key in MarkRows(marks, filters, cells, ids, rowIDs, inRange) <==> key in marks
    decreases |rowIDs|
  {
    if |rowIDs| > 0 {
      MarkRowUnvisited(marks, filters, cells, ids, rowIDs[0], inRange, key);
      MarkRowsUnvisited(MarkRow(marks, filters, cells, ids, rowIDs[0], inRange), filters, cells, ids, rowIDs[1..], inRange, key);
    }
  }

  lemma {:induction false} MarkRowUnvisited(marks: set<string>, filters: map<string, Evaluator>, cells: map<string, Cell>,
                                            ids: seq<string>, rowID: string, inRange: (string, string, string) -> bool, key: string)
    requires forall j :: 0 <= j < |ids| ==> rowID + "." + ids[j] != key
    ensures key in MarkRow(marks, filters, cells, ids, rowID, inRange) <==> key in marks
    decreases |ids|
  {
    if |ids| > 0 {
      var k := rowID + "." + ids[0];
      var next :=
        if ids[0] in filters && k in cells && Readable(filters[ids[0]], cells[k]) then
          (if Accepts(filters[ids[0]], cells[k], inRange) then marks - {k} else marks + {k})
        else marks;
      MarkRowUnvisited(next, filters, cells, ids[1..], rowID, inRange, key);
    }
  }

  /**
   * A cell that only the filter `id` visits ends up marked exactly when
   * that filter rejects it.
   */
  lemma {:induction false} MarkRowsVerdict(marks: set<string>, filters: map<string, Evaluator>, cells: map<string, Cell>,
                                           ids: seq<string>, rowIDs: seq<string>, inRange: (string, string, string) -> bool,
                                           rowID: string, id: string)
    requires rowID in rowIDs && id in ids && id in filters
    requires rowID + "." + id in cells && Readable(filters[id], cells[rowID + "." + id])
    requires forall i, j :: 0 <= i < |rowIDs| && 0 <= j < |ids| && rowIDs[i] + "." + ids[j] == rowID + "." + id ==> ids[j] == id
    ensures rowID + "." + id in MarkRows(marks, filters, cells, ids, rowIDs, inRange) <==>
      !Accepts(filters[id], cells[rowID + "." + id], inRange)
    decreases |rowIDs|
  {
    var key := rowID + "." + id;
    var after := MarkRow(marks, filters, cells, ids, rowIDs[0], inRange);
    var visits := exists j :: 0 <= j < |ids| && rowIDs[0] + "." + ids[j] == key;
    if visits {
      var j :| 0 <= j < |ids| && rowIDs[0] + "." + ids[j] == key;
      assert ids[j] == id;
      MarkRowVerdict(marks, filters, cells, ids, rowIDs[0], inRange, key, id);
    } else {
      MarkRowUnvisited(marks, filters, cells, ids, rowIDs[0], inRange, key);
    }
    if rowID in rowIDs[1..] {
      assert forall i :: 0 <= i < |rowIDs[1..]| ==> rowIDs[1..][i] == rowIDs[i + 1];
      MarkRowsVerdict(after, filters, cells, ids, rowIDs[1..], inRange, rowID, id);
    } else {
      assert rowIDs[0] == rowID;
      forall i, j | 0 <= i < |rowIDs[1..]| && 0 <= j < |ids|
        ensures rowIDs[1..][i] + "." + ids[j] != key
      {
        if rowIDs[1..][i] + "." + ids[j] == key {
          assert rowIDs[i + 1] + "." + ids[j] == key;
          assert ids[j] == id;
          assert rowIDs[1..][i] + "." + id == rowIDs[1..][i] + ("." + id);
          assert rowID + "." + id == rowID + ("." + id);
          SuffixCancels(rowIDs[1..][i], rowID, "." + id);
        }
      }
      MarkRowsUnvisited(after, filters, cells, ids, rowIDs[1..], inRange, key);
    }
  }

  lemma {:induction false} MarkRowVerdict(marks: set<string>, filters: map<string, Evaluator>, cells: map<string, Cell>,
                                          ids: seq<string>, rowID: string, inRange: (string, string, string) -> bool,
                                          key: string, id: string)
    requires key == rowID + "." + id && id in ids && id in filters && key in cells && Readable(filters[id], cells[key])
    requires forall j :: 0 <= j < |ids| && rowID + "." + ids[j] == key ==> ids[j] == id
    ensures key in MarkRow(marks, filters, cells, ids, rowID, inRange) <==> !Accepts(filters[id], cells[key], inRange)
    decreases |ids|
  {
    var k := rowID + "." + ids[0];
    var next :=
      if ids[0] in filters && k in cells && Readable(filters[ids[0]], cells[k]) then
        (if Accepts(filters[ids[0]], cells[k], inRange) then marks - {k} else marks + {k})
      else marks;
    assert forall j :: 0 <= j < |ids[1..]| ==> ids[1..][j] == ids[j + 1];
    if id in ids[1..] {
      MarkRowVerdict(next, filters, cells, ids[1..], rowID, inRange, key, id);
    } else {
      assert ids[0] == id;
      MarkRowUnvisited(next, filters, cells, ids[1..], rowID, inRange, key);
    }
  }

  /** An identity filter never rejects: with only disabled filters no row is excluded. */
  lemma PassAllNeverRejects(filters: map<string, Evaluator>, cells: map<string, Cell>, ids: seq<string>, rowID: string,
                            inRange: (string, string, string) -> bool)
    requires forall id :: id in filters ==> filters[id] == PassAll
    ensures !RowRejected(filters, cells, ids, rowID, inRange)
  {
  }

  /** The filter `id` can be called on the row's cell: the filter or the cell is absent, or the cell holds what the filter reads. */
  predicate CellReadable(filters: map<string, Evaluator>, cells: map<string, Cell>, rowID: string, id: string)
  {
    var key := rowID + "." + id;
    id in filters && key in cells ==> Readable(filters[id], cells[key])
  }

  /**
   * The position among `ids` of the first filter whose call on the row's cell
   * throws a TypeError (the cell lacks the hidden value or the check box the
   * filter reads), or |ids| when no call throws.
   */
  function FirstUnreadable(filters: map<string, Evaluator>, cells: map<string, Cell>, ids: seq<string>, rowID: string): (j: nat)
    ensures j <= |ids|
    ensures forall k :: 0 <= k < j ==> CellReadable(filters, cells, rowID, ids[k])
    ensures j < |ids| ==> !CellReadable(filters, cells, rowID, ids[j])
    decreases |ids|
  {
    if |ids| == 0 || !CellReadable(filters, cells, rowID, ids[0]) then 0
    else 1 + FirstUnreadable(filters, cells, ids[1..], rowID)
  }

  /** The first row whose pass throws, or |rowIDs| when none does. */
  function FirstBadRow(filters: map<string, Evaluator>, cells: map<string, Cell>, ids: seq<string>, rowIDs: seq<string>): (b: nat)
    ensures b <= |rowIDs|
    ensures forall i :: 0 <= i < b ==> FirstUnreadable(filters, cells, ids, rowIDs[i]) == |ids|
    ensures b < |rowIDs| ==> FirstUnreadable(filters, cells, ids, rowIDs[b]) < |ids|
    decreases |rowIDs|
  {
    if |rowIDs| == 0 || FirstUnreadable(filters, cells, ids, rowIDs[0]) < |ids| then 0
    else 1 + FirstBadRow(filters, cells, ids, rowIDs[1..])
  }

  /** The pass over the rows throws exactly when some filter meets a cell it cannot read. */
  lemma BadRowIffUnreadable(filters: map<string, Evaluator>, cells: map<string, Cell>, ids: seq<string>, rowIDs: seq<string>)
    ensures FirstBadRow(filters, cells, ids, rowIDs) == |rowIDs| <==> CellsReadable(filters, cells, ids, rowIDs)
  {
    var b := FirstBadRow(filters, cells, ids, rowIDs);
    if b < |rowIDs| {
      var j := FirstUnreadable(filters, cells, ids, rowIDs[b]);
      assert !CellReadable(filters, cells, rowIDs[b], ids[j]);
    } else {
      forall i, j | 0 <= i < |rowIDs| && 0 <= j < |ids| && ids[j] in filters && rowIDs[i] + "." + ids[j] in cells
        ensures Readable(filters[ids[j]], cells[rowIDs[i] + "." + ids[j]])
      {
        assert FirstUnreadable(filters, cells, ids, rowIDs[i]) == |ids|;
        assert CellReadable(filters, cells, rowIDs[i], ids[j]);
      }
    }
  }

  /**
   * The cell marks evaluateFilters leaves: row by row, and within the row
   * that throws only the cells before the throwing filter; later rows are
   * not reached.
   */
  function MarkRowsAborting(marks: set<string>, filters: map<string, Evaluator>, cells: map<string, Cell>, ids: seq<string>,
                            rowIDs: seq<string>, inRange: (string, string, string) -> bool): set<string>
    decreases |rowIDs|
  {
    if |rowIDs| == 0 then marks
    else
      var j := FirstUnreadable(filters, cells, ids, rowIDs[0]);
      var m := MarkRow(marks, filters, cells, ids[..j], rowIDs[0], inRange);
      if j < |ids| then m else MarkRowsAborting(m, filters, cells, ids, rowIDs[1..], inRange)
  }

  /**
   * The marks after the pass are those of the full evaluation when no call
   * throws; otherwise those of the full evaluation of the rows before the
   * failing one, followed by its cells before the failing filter.
   */
  lemma {:induction false} AbortingPrefix(marks: set<string>, filters: map<string, Evaluator>, cells: map<string, Cell>,
                                          ids: seq<string>, rowIDs: seq<string>, inRange: (string, string, string) -> bool)
    ensures var b := FirstBadRow(filters, cells, ids, rowIDs);
      MarkRowsAborting(marks, filters, cells, ids, rowIDs, inRange) ==
        if b == |rowIDs| then MarkRows(marks, filters, cells, ids, rowIDs, inRange)
        else MarkRow(MarkRows(marks, filters, cells, ids, rowIDs[..b], inRange), filters, cells,
                     ids[..FirstUnreadable(filters, cells, ids, rowIDs[b])], rowIDs[b], inRange)
    decreases |rowIDs|
  {
    if |rowIDs| > 0 {
      var j := FirstUnreadable(filters, cells, ids, rowIDs[0]);
      if j < |ids| {
        assert rowIDs[..0] == [];
      } else {
        assert ids[..j] == ids;
        var m := MarkRow(marks, filters, cells, ids, rowIDs[0], inRange);
        var b := FirstBadRow(filters, cells, ids, rowIDs);
        AbortingPrefix(m, filters, cells, ids, rowIDs[1..], inRange);
        if b < |rowIDs| {
          assert rowIDs[..b][1..] == rowIDs[1..][..b - 1];
          assert rowIDs[1..][b - 1] == rowIDs[b];
        }
      }
    }
  }

  /**
   * What evaluateFilters leaves on the rows: those before the failing one
   * excluded exactly when some filter rejects one of their cells, the failing
   * one when a filter before the failing filter rejects its cell, and the
   * rest as they were.
   */
  predicate EvaluatedRows(filters: map<string, Evaluator>, cells: map<string, Cell>, ids: seq<string>, rowIDs: seq<string>,
                          inRange: (string, string, string) -> bool, before: seq<bool>, after: seq<bool>)
  {
    var b := FirstBadRow(filters, cells, ids, rowIDs);
    |before| == |rowIDs| == |after| &&
    (forall i :: 0 <= i < b ==> after[i] == RowRejected(filters, cells, ids, rowIDs[i], inRange)) &&
    (b < |rowIDs| ==>
      after[b] == RowRejected(filters, cells, ids[..FirstUnreadable(filters, cells, ids, rowIDs[b])], rowIDs[b], inRange)) &&
    (forall i :: b < i < |rowIDs| ==> after[i] == before[i])
  }

  /**
   * One row's pass of evaluateFilters, up to the first filter that throws
   * (reported as `failed`): the row's verdict and the cells' new marks.
   */
  method EvaluateRow(filters: map<string, Evaluator>, cells: map<string, Cell>, ids: seq<string>, rowID: string,
                     inRange: (string, string, string) -> bool, marks0: set<string>)
    returns (rejected: bool, marks: set<string>, failed: bool)
    ensures var stop := FirstUnreadable(filters, cells, ids, rowID);
      (failed <==> stop < |ids|) &&
      rejected == RowRejected(filters, cells, ids[..stop], rowID, inRange) &&
      marks == MarkRow(marks0, filters, cells, ids[..stop], rowID, inRange)
  {
    ghost var stop := FirstUnreadable(filters, cells, ids, rowID);
    rejected, marks, failed := false, marks0, false;
    var j := 0;
    while j < |ids|
      invariant 0 <= j <= stop
      invariant rejected <==> exists j' :: 0 <= j' < j && Rejects(filters, cells, rowID, ids[j'], inRange)
      invariant MarkRow(marks, filters, cells, ids[j..stop], rowID, inRange) == MarkRow(marks0, filters, cells, ids[..stop], rowID, inRange)
    {
      var id := ids[j];
      var key := rowID + "." + id;
      if id in filters && key in cells {
        if !Readable(filters[id], cells[key]) {
          assert j == stop && ids[j..stop] == [];
          assert forall k :: 0 <= k < stop ==> ids[..stop][k] == ids[k];
          failed := true;
          return;
        }
      }
      assert j < stop && ids[j..stop][1..] == ids[j + 1..stop];
      if id in filters && key in cells {
        var accept := Test(filters[id], cells[key], inRange);
        if accept {
          marks := marks - {key};
        } else {
          marks := marks + {key};
          rejected := true;
        }
      }
      j := j + 1;
    }
    assert ids[..stop] == ids;
  }

  /** The cells of date columns carry a hidden value and those of the outlier column a check box. */
  predicate ColumnsReadable(cells: map<string, Cell>, ids: seq<string>, rowIDs: seq<string>)
  {
    forall i, j :: 0 <= i < |rowIDs| && 0 <= j < |ids| && rowIDs[i] + "." + ids[j] in cells ==>
      (GeneratorOf(ids[j]) == DatesGen ==> |cells[rowIDs[i] + "." + ids[j]].vals| > 0)
      && (GeneratorOf(ids[j]) == OutliersGen ==> |cells[rowIDs[i] + "." + ids[j]].checks| > 0)
  }

  /** Every evaluator built from the panels can read the cells of its column. */
  lemma BuiltFiltersReadable(cells: map<string, Cell>, ids: seq<string>, rowIDs: seq<string>, panels: seq<Panel>)
    requires ColumnsReadable(cells, ids, rowIDs)
    ensures CellsReadable(BuildFilters(ids, panels, map[]).0, cells, ids, rowIDs)
  {
    BuildFiltersKinds(ids, panels, map[]);
  }

  /** The row's cell in the outlier column has a checked check box. */
  predicate OutlierChecked(cells: map<string, Cell>, rowID: string)
  {
    rowID + ".outlier" in cells && true in cells[rowID + ".outlier"].checks
  }

  /**
   * Some "outlierVal" check box of the table is checked.  Those boxes are the
   * check boxes of the outlier column's cells.
   */
  predicate OutliersPresent(cells: map<string, Cell>, rowIDs: seq<string>)
  {
    exists i :: 0 <= i < |rowIDs| && OutlierChecked(cells, rowIDs[i])
  }

  // ---------------------------------------------------------------------
  // The page
  // ---------------------------------------------------------------------

  class FilterPage {
    /** The filter IDs, one per top-level panel, in document order. */
    const filterIDs: seq<string>
    /** The data rows' ids, header row excluded, in document order. */
    const rowIDs: seq<string>
    /** The data cells by element id "<row id>.<filter ID>". */
    const cells: map<string, Cell>
    var panels: seq<Panel>
    /** Class "filterExcluded" on each data row. */
    var rowExcluded: seq<bool>
    /** The cells with class "filterExcluded". */
    var cellExcluded: set<string>

    predicate Valid()
      reads this
    {
      |rowExcluded| == |rowIDs|
    }

    constructor(filterIDs: seq<string>, panels: seq<Panel>, rowIDs: seq<string>, cells: map<string, Cell>)
      ensures Valid()
      ensures this.filterIDs == filterIDs && this.panels == panels && this.rowIDs == rowIDs && this.cells == cells
      ensures forall i :: 0 <= i < |rowIDs| ==> !rowExcluded[i]
      ensures cellExcluded == {}
    {
      this.filterIDs, this.panels, this.rowIDs, this.cells := filterIDs, panels, rowIDs, cells;
      rowExcluded := seq(|rowIDs|, _ => false);
      cellExcluded := {};
    }

    method CloseFilters()
      modifies this`panels
      ensures panels == Closed(old(panels))
    {
      var i := 0;
      while i < |panels|
        invariant 0 <= i <= |panels| == |old(panels)|
        invariant forall j :: 0 <= j < i ==> panels[j] == old(panels)[j].(active := false)
        invariant forall j :: i <= j < |panels| ==> panels[j] == old(panels)[j]
      {
        panels := panels[i := panels[i].(active := false)];
        i := i + 1;
      }
      ghost var closed := Closed(old(panels));
      assert forall j :: 0 <= j < |panels| ==> closed[j] == old(panels)[j].(active := false);
    }

    method FilterClick(k: nat)
      requires k < |panels|
      modifies this`panels
      ensures panels == Clicked(old(panels), k)
    {
      var wasActive := panels[k].active;
      CloseFilters();
      if !wasActive {
        panels := panels[k := panels[k].(active := true)];
      }
    }

    method FilterOnTd(k: nat)
      requires k < |panels|
      modifies this`panels
      ensures panels == old(panels)[k := FilterOn(old(panels)[k])]
    {
      panels := panels[k := panels[k].(active := false, enabled := true, enabledValue := "true")];
    }

    method FilterOffTd(k: nat)
      requires k < |panels|
      modifies this`panels
      ensures panels == old(panels)[k := FilterOff(old(panels)[k])]
    {
      panels := panels[k := panels[k].(active := false, enabled := false, enabledValue := "")];
    }

    method CreateFilterEvaluators() returns (filters: map<string, Evaluator>)
      modifies this`panels
      ensures (filters, panels) == BuildFilters(filterIDs, old(panels), map[])
    {
      filters := map[];
      var i := 0;
      while i < |filterIDs|
        invariant 0 <= i <= |filterIDs|
        invariant BuildFilters(filterIDs[i..], panels, filters) == BuildFilters(filterIDs, old(panels), map[])
      {
        var id := filterIDs[i];
        assert filterIDs[i..][1..] == filterIDs[i + 1..];
        var k := PanelIndex(panels, id + "Filter");
        if k.Some? {
          if panels[k.value].enabledValue != [] {
            var g := Generate(id, panels[k.value]);
            if g.switchOff {
              FilterOffTd(k.value);
            }
            filters := filters[id := g.evaluator];
          } else {
            filters := filters[id := PassAll];
          }
        }
        i := i + 1;
      }
    }

    /**
     * evaluateFilters: each row in turn, its class removed, then each filter
     * on its cell; a call that throws ends the pass (`failed`).
     */
    method EvaluateFilters(filters: map<string, Evaluator>, inRange: (string, string, string) -> bool) returns (failed: bool)
      requires Valid()
      modifies this`rowExcluded, this`cellExcluded
      ensures Valid()
      ensures failed <==> !CellsReadable(filters, cells, filterIDs, rowIDs)
      ensures EvaluatedRows(filters, cells, filterIDs, rowIDs, inRange, old(rowExcluded), rowExcluded)
      ensures cellExcluded == MarkRowsAborting(old(cellExcluded), filters, cells, filterIDs, rowIDs, inRange)
      ensures !failed ==> forall i :: 0 <= i < |rowIDs| ==> rowExcluded[i] == RowRejected(filters, cells, filterIDs, rowIDs[i], inRange)
      ensures !failed ==> cellExcluded == MarkRows(old(cellExcluded), filters, cells, filterIDs, rowIDs, inRange)
    {
      ghost var b := FirstBadRow(filters, cells, filterIDs, rowIDs);
      BadRowIffUnreadable(filters, cells, filterIDs, rowIDs);
      AbortingPrefix(old(cellExcluded), filters, cells, filterIDs, rowIDs, inRange);
      failed := false;
      var i := 0;
      while i < |rowIDs|
        invariant 0 <= i <= b && |rowExcluded| == |rowIDs|
        invariant forall j :: 0 <= j < i ==> rowExcluded[j] == RowRejected(filters, cells, filterIDs, rowIDs[j], inRange)
        invariant forall j :: i <= j < |rowIDs| ==> rowExcluded[j] == old(rowExcluded)[j]
        invariant MarkRowsAborting(cellExcluded, filters, cells, filterIDs, rowIDs[i..], inRange)
               == MarkRowsAborting(old(cellExcluded), filters, cells, filterIDs, rowIDs, inRange)
      {
        assert rowIDs[i..][1..] == rowIDs[i + 1..];
        var rejected, marks, rowFailed := EvaluateRow(filters, cells, filterIDs, rowIDs[i], inRange, cellExcluded);
        rowExcluded := rowExcluded[i := rejected];
        cellExcluded := marks;
        if rowFailed {
          assert i == b;
          failed := true;
          return;
        }
        assert filterIDs[..|filterIDs|] == filterIDs;
        i := i + 1;
      }
    }

    /** applyFilters: the evaluators are rebuilt from the panels and the rows evaluated with them. */
    method ApplyFilters(inRange: (string, string, string) -> bool) returns (failed: bool)
      requires Valid()
      modifies this`panels, this`rowExcluded, this`cellExcluded
      ensures Valid()
      ensures var built := BuildFilters(filterIDs, old(panels), map[]);
        panels == built.1 &&
        (failed <==> !CellsReadable(built.0, cells, filterIDs, rowIDs)) &&
        EvaluatedRows(built.0, cells, filterIDs, rowIDs, inRange, old(rowExcluded), rowExcluded) &&
        cellExcluded == MarkRowsAborting(old(cellExcluded), built.0, cells, filterIDs, rowIDs, inRange)
      ensures ColumnsReadable(cells, filterIDs, rowIDs) ==> !failed
      ensures !failed ==> forall i :: 0 <= i < |rowIDs| ==>
        rowExcluded[i] == RowRejected(BuildFilters(filterIDs, old(panels), map[]).0, cells, filterIDs, rowIDs[i], inRange)
      ensures !failed ==>
        cellExcluded == MarkRows(old(cellExcluded), BuildFilters(filterIDs, old(panels), map[]).0, cells, filterIDs, rowIDs, inRange)
    {
      if ColumnsReadable(cells, filterIDs, rowIDs) {
        BuiltFiltersReadable(cells, filterIDs, rowIDs, panels);
      }
      var filters := CreateFilterEvaluators();
      failed := EvaluateFilters(filters, inRange);
    }

    /**
     * checkOutliers: the outlier panel is switched on when some outlier check
     * box is checked and off otherwise, then the filters are applied.  Without
     * an "outlierFilter" panel the switch throws and nothing changes.
     */
    method CheckOutliers(inRange: (string, string, string) -> bool) returns (failed: bool)
      requires Valid()
      modifies this`panels, this`rowExcluded, this`cellExcluded
      ensures Valid()
      ensures PanelIndex(old(panels), "outlierFilter").None? ==>
        failed && panels == old(panels) && rowExcluded == old(rowExcluded) && cellExcluded == old(cellExcluded)
      ensures PanelIndex(old(panels), "outlierFilter").Some? ==>
        var k := PanelIndex(old(panels), "outlierFilter").value;
        var switched := old(panels)[k := if OutliersPresent(cells, rowIDs) then FilterOn(old(panels)[k]) else FilterOff(old(panels)[k])];
        var built := BuildFilters(filterIDs, switched, map[]);
        panels == built.1 &&
        (failed <==> !CellsReadable(built.0, cells, filterIDs, rowIDs)) &&
        EvaluatedRows(built.0, cells, filterIDs, rowIDs, inRange, old(rowExcluded), rowExcluded) &&
        cellExcluded == MarkRowsAborting(old(cellExcluded), built.0, cells, filterIDs, rowIDs, inRange)
    {
      var k := PanelIndex(panels, "outlierFilter");
      if k.None? {
        return true;
      }
      var present := FindCheckedOutlier();
      if present {
        FilterOnTd(k.value);
      } else {
        FilterOffTd(k.value);
      }
      failed := ApplyFilters(inRange);
    }

    /** Whether some outlier check box of the table is checked (the `find` of checkOutliers). */
    method FindCheckedOutlier() returns (present: bool)
      ensures present == OutliersPresent(cells, rowIDs)
    {
      var i := 0;
      while i < |rowIDs|
        invariant 0 <= i <= |rowIDs|
        invariant forall j :: 0 <= j < i ==> !OutlierChecked(cells, rowIDs[j])
      {
        if OutlierChecked(cells, rowIDs[i]) {
          return true;
        }
        i := i + 1;
      }
      return false;
    }
  }
}
