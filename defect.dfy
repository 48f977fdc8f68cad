/**
 * A defect log record: seven string fields and a date, stored as one line of
 * tab-terminated fields. Newlines inside the description are stored as U+0001.
 * FormatUtil.parseDate and XMLUtils.saveDate are given as function parameters.
 */
module Defect {
  import opened Wrappers
  import opened Strings

  /** The reserved character that stands for a newline inside a stored description. */
  const SUBSTITUTE: char := '\U{1}'
  const TAB: char := '\t'

  datatype Date = Date(millis: int)

  /** The public fields of a Defect; a Java null field is None. */
  datatype Defect = Defect(
    number: Option<string>, defectType: Option<string>, phaseInjected: Option<string>,
    phaseRemoved: Option<string>, fixTime: Option<string>, fixDefect: Option<string>,
    description: Option<string>, date: Option<Date>)

  datatype ParseException = NullInput | PoorFormatting

  predicate NoTab(s: string)
  {
    !ContainsChar(s, TAB)
  }

  /** token(s, multiline): never empty, never holding a tab. */
  function Token(s: Option<string>, multiline: bool): (r: string)
    ensures |r| > 0 && NoTab(r)
    ensures s.None? || s.value == [] ==> r == " "
    ensures s.Some? && s.value != [] ==> |r| == |s.value| && forall i :: 0 <= i < |r| ==>
      r[i] == (if s.value[i] == TAB then ' '
               else if s.value[i] == '\n' then (if multiline then SUBSTITUTE else ' ')
               else s.value[i])
  {
    if s.None? then " "
    else if |s.value| == 0 then " "
    else if multiline then ReplaceChar(ReplaceChar(s.value, TAB, ' '), '\n', SUBSTITUTE)
    else ReplaceChar(ReplaceChar(s.value, TAB, ' '), '\n', ' ')
  }

  /** The eight stored tokens of a defect, in field order; the date is saved by `saveDate`. */
  function Fields(d: Defect, saveDate: Date -> string): (r: seq<string>)
    ensures |r| == 8
    ensures forall i :: 0 <= i < 8 ==> |r[i]| > 0 && NoTab(r[i])
  {
    var dateStr := if d.date.Some? then saveDate(d.date.value) else "";
    [Token(d.number, false), Token(d.defectType, false), Token(d.phaseInjected, false),
     Token(d.phaseRemoved, false), Token(d.fixTime, false), Token(d.fixDefect, false),
     Token(d.description, true), Token(Some(dateStr), false)]
  }

  /** Each field followed by a tab. */
  function Join(fields: seq<string>): string
  {
    if fields == [] then [] else fields[0] + [TAB] + Join(fields[1..])
  }

  /** Defect.toString(). */
  function ToString(d: Defect, saveDate: Date -> string): (r: string)
    ensures Tokens(r) == Fields(d, saveDate)
    ensures |r| > 0 && r[|r| - 1] == TAB
  {
    var f := Fields(d, saveDate);
    TokensOfJoin(f);
    JoinEndsWithTab(f);
    Join(f)
  }

  lemma {:induction false} JoinEndsWithTab(fields: seq<string>)
    requires fields != []
    ensures |Join(fields)| > 0 && Join(fields)[|Join(fields)| - 1] == TAB
  {
    if |fields| > 1 {
      JoinEndsWithTab(fields[1..]);
    }
  }

  /** Position of the first tab at or after the start, or the length: the end of a token. */
  function RunLength(s: string): (n: nat)
    ensures n <= |s|
    ensures forall i :: 0 <= i < n ==> s[i] != TAB
    ensures n < |s| ==> s[n] == TAB
  {
    if s == [] || s[0] == TAB then 0 else 1 + RunLength(s[1..])
  }

  /** StringTokenizer(s, "\t"): the maximal non-empty runs of non-tab characters. */
  function Tokens(s: string): (r: seq<string>)
    ensures forall i :: 0 <= i < |r| ==> |r[i]| > 0 && NoTab(r[i])
    decreases |s|
  {
    if s == [] then []
    else if s[0] == TAB then Tokens(s[1..])
    else
      var n := RunLength(s);
      [s[..n]] + Tokens(s[n..])
  }

  lemma RunLengthOfToken(w: string, rest: string)
    requires |w| > 0 && NoTab(w)
    ensures RunLength(w + [TAB] + rest) == |w|
    decreases |w|
  {
    if |w| > 1 {
      assert (w + [TAB] + rest)[1..] == w[1..] + [TAB] + rest;
      RunLengthOfToken(w[1..], rest);
    }
  }

  lemma TokensAfterToken(w: string, rest: string)
    requires |w| > 0 && NoTab(w)
    ensures Tokens(w + [TAB] + rest) == [w] + Tokens(rest)
  {
    var s := w + [TAB] + rest;
    RunLengthOfToken(w, rest);
    assert s[..|w|] == w;
    assert s[|w|..] == [TAB] + rest;
    assert s[|w|..][1..] == rest;
  }

  lemma {:induction false} TokensOfJoin(fields: seq<string>)
    requires forall i :: 0 <= i < |fields| ==> |fields[i]| > 0 && NoTab(fields[i])
    ensures Tokens(Join(fields)) == fields
  {
    if fields != [] {
      TokensOfJoin(fields[1..]);
      TokensAfterToken(fields[0], Join(fields[1..]));
    }
  }

  /** Tokens(s[pos..]) takes its first token from `start` to `end`. */
  lemma TokensSkip(s: string, pos: nat)
    requires pos < |s| && s[pos] == TAB
    ensures Tokens(s[pos..]) == Tokens(s[pos + 1..])
  {
    assert s[pos..][1..] == s[pos + 1..];
  }

  lemma TokensTake(s: string, pos: nat, end: nat)
    requires pos < end <= |s|
    requires forall i :: pos <= i < end ==> s[i] != TAB
    requires end == |s| || s[end] == TAB
    ensures Tokens(s[pos..]) == [s[pos..end]] + Tokens(s[end..])
  {
    var t := s[pos..];
    RunLengthIs(t, end - pos);
    assert t[..end - pos] == s[pos..end];
    assert t[end - pos..] == s[end..];
  }

  lemma {:induction false} RunLengthIs(t: string, n: nat)
    requires n <= |t|
    requires forall i :: 0 <= i < n ==> t[i] != TAB
    requires n == |t| || t[n] == TAB
    ensures RunLength(t) == n
  {
    if n > 0 {
      RunLengthIs(t[1..], n - 1);
    }
  }

  /**
   * StringTokenizer.nextToken() from position `pos`: skips tabs, then takes the run up to the
   * next tab. None is its NoSuchElementException.
   */
  method NextToken(s: string, pos: nat) returns (r: Option<(string, nat)>)
    requires pos <= |s|
    ensures r.None? <==> Tokens(s[pos..]) == []
    ensures r.Some? ==> r.value.1 <= |s| && Tokens(s[pos..]) == [r.value.0] + Tokens(s[r.value.1..])
  {
    var i := pos;
    while i < |s| && s[i] == TAB
      invariant pos <= i <= |s|
      invariant Tokens(s[pos..]) == Tokens(s[i..])
    {
      TokensSkip(s, i);
      i := i + 1;
    }
    if i == |s| {
      return None;
    }
    var j := i;
    while j < |s| && s[j] != TAB
      invariant i <= j <= |s|
      invariant forall k :: i <= k < j ==> s[k] != TAB
    {
      j := j + 1;
    }
    TokensTake(s, i, j);
    return Some((s[i..j], j));
  }

  /** The defect built from a token sequence: the first eight tokens, or PoorFormatting. */
  function FromTokens(t: seq<string>, parseDate: string -> Option<Date>): (r: Result<Defect, ParseException>)
    ensures r.Ok? <==> |t| >= 8
    ensures r.Err? ==> r.error == PoorFormatting
  {
    if |t| < 8 then Err(PoorFormatting)
    else Ok(Defect(Some(t[0]), Some(t[1]), Some(t[2]), Some(t[3]), Some(t[4]), Some(t[5]),
                   Some(t[6]), parseDate(t[7])))
  }

  /**
   * The parsing constructor Defect(String): null is refused, then U+0001 goes back to newline
   * and the fields are the first eight tab-separated tokens.
   */
  method Parse(s: Option<string>, parseDate: string -> Option<Date>) returns (r: Result<Defect, ParseException>)
    ensures s.None? ==> r == Err(NullInput)
    ensures s.Some? ==> r == FromTokens(Tokens(ReplaceChar(s.value, SUBSTITUTE, '\n')), parseDate)
  {
    if s.None? {
      return Err(NullInput);
    }
    var text := ReplaceChar(s.value, SUBSTITUTE, '\n');
    var fields := TakeTokens(text, 8);
    if fields.None? {
      return Err(PoorFormatting);
    }
    var f := fields.value;
    r := Ok(Defect(Some(f[0]), Some(f[1]), Some(f[2]), Some(f[3]), Some(f[4]), Some(f[5]), Some(f[6]),
                   parseDate(f[7])));
  }

  /** The first `n` tokens by repeated nextToken, or None when the text has fewer. */
  method TakeTokens(text: string, n: nat) returns (r: Option<seq<string>>)
    ensures r.None? <==> |Tokens(text)| < n
    ensures r.Some? ==> r.value == Tokens(text)[..n]
  {
    ghost var all := Tokens(text);
    var fields: seq<string> := [];
    var pos: nat := 0;
    while |fields| < n
      invariant pos <= |text| && |fields| <= n
      invariant all == fields + Tokens(text[pos..])
    {
      var next := NextToken(text, pos);
      if next.None? {
        assert all == fields;
        return None;
      }
      fields := fields + [next.value.0];
      pos := next.value.1;
    }
    assert all[..n] == fields;
    return Some(fields);
  }

  /** A single-line field that the stored form keeps exactly: present, non-empty, plain. */
  predicate CleanField(f: Option<string>)
  {
    f.Some? && f.value != [] && NoTab(f.value) && !ContainsChar(f.value, '\n') && !ContainsChar(f.value, SUBSTITUTE)
  }

  /** A description the stored form keeps exactly: newlines allowed, tabs and U+0001 not. */
  predicate CleanDescription(f: Option<string>)
  {
    f.Some? && f.value != [] && NoTab(f.value) && !ContainsChar(f.value, SUBSTITUTE)
  }

  lemma ReplaceJoin(fields: seq<string>)
    ensures ReplaceChar(Join(fields), SUBSTITUTE, '\n') ==
      Join(seq(|fields|, i requires 0 <= i < |fields| => ReplaceChar(fields[i], SUBSTITUTE, '\n')))
  {
    if fields != [] {
      var a, b := fields[0] + [TAB], Join(fields[1..]);
      assert ReplaceChar(a + b, SUBSTITUTE, '\n') == ReplaceChar(a, SUBSTITUTE, '\n') + ReplaceChar(b, SUBSTITUTE, '\n');
      assert ReplaceChar(a, SUBSTITUTE, '\n') == ReplaceChar(fields[0], SUBSTITUTE, '\n') + [TAB];
      ReplaceJoin(fields[1..]);
      var m := seq(|fields|, i requires 0 <= i < |fields| => ReplaceChar(fields[i], SUBSTITUTE, '\n'));
      assert m[1..] == seq(|fields[1..]|, i requires 0 <= i < |fields[1..]| => ReplaceChar(fields[1..][i], SUBSTITUTE, '\n'));
    }
  }

  /**
   * Parsing the stored form restores the seven string fields when they are clean; the date
   * comes back as parseDate of the stored date token.
   */
  lemma {:induction false} ParseOfToString(d: Defect, saveDate: Date -> string, parseDate: string -> Option<Date>)
    requires CleanField(d.number) && CleanField(d.defectType) && CleanField(d.phaseInjected)
    requires CleanField(d.phaseRemoved) && CleanField(d.fixTime) && CleanField(d.fixDefect)
    requires CleanDescription(d.description)
    ensures FromTokens(Tokens(ReplaceChar(ToString(d, saveDate), SUBSTITUTE, '\n')), parseDate) ==
      Ok(d.(date := parseDate(ReplaceChar(Fields(d, saveDate)[7], SUBSTITUTE, '\n'))))
  {
    var f := Fields(d, saveDate);
    var g := seq(8, i requires 0 <= i < 8 => ReplaceChar(f[i], SUBSTITUTE, '\n'));
    ReplaceJoin(f);
    forall i | 0 <= i < 8
      ensures |g[i]| > 0 && NoTab(g[i])
    {
      assert |g[i]| == |f[i]|;
    }
    TokensOfJoin(g);
    FieldKept(d.number, false);
    FieldKept(d.defectType, false);
    FieldKept(d.phaseInjected, false);
    FieldKept(d.phaseRemoved, false);
    FieldKept(d.fixTime, false);
    FieldKept(d.fixDefect, false);
    FieldKept(d.description, true);
  }

  lemma FieldKept(x: Option<string>, multiline: bool)
    requires if multiline then CleanDescription(x) else CleanField(x)
    ensures ReplaceChar(Token(x, multiline), SUBSTITUTE, '\n') == x.value
  {
    var t := Token(x, multiline);
    var u := ReplaceChar(t, SUBSTITUTE, '\n');
    forall i | 0 <= i < |u|
      ensures u[i] == x.value[i]
    {
      assert x.value[i] != TAB && x.value[i] != SUBSTITUTE;
      if !multiline { assert x.value[i] != '\n'; }
    }
  }
}
