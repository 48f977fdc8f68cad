/**
 * The build task that copies the installer's translated strings into an IzPack langpack:
 * XML escaping of string values, emission of the sorted <str> entries, byte-wise line
 * reading, the end-of-standard-strings marker and the up-to-date check.
 * The platform line separator (System.getProperty("line.separator")) is a parameter.
 */
module IzPackResources {
  import opened Wrappers
  import opened Strings

  const BUNDLE_NAME: string := "Installer"
  const OPENING_COMMENT: string := "<!-- Process Dashboard strings -->"
  const CLOSING_TAG: string := "</langpack>"
  const TEXT_PREFIX: string := "text."

  /** The delimiters of escape's StringTokenizer, each returned as a token of its own. */
  predicate IsSpecial(c: char)
  {
    c == '<' || c == '>' || c == '&' || c == '"' || c == '\'' || c == '\r' || c == '\n'
  }

  /** What escape appends for one token of one character. */
  function EscapeChar(c: char, lineSep: string): string
  {
    if c == '<' then "&lt;"
    else if c == '>' then "&gt;"
    else if c == '&' then "&amp;"
    else if c == '\'' then "&apos;"
    else if c == '"' then "&quot;"
    else if c == '\r' then ""
    else if c == '\n' then lineSep
    else [c]
  }

  /** The escaped form, character by character. */
  function Escaped(s: string, lineSep: string): string
  {
    if s == [] then [] else EscapeChar(s[0], lineSep) + Escaped(s[1..], lineSep)
  }

  lemma {:induction false} EscapedAppend(a: string, b: string, lineSep: string)
    ensures Escaped(a + b, lineSep) == Escaped(a, lineSep) + Escaped(b, lineSep)
  {
    if a == [] {
      assert a + b == b;
    } else {
      assert (a + b)[0] == a[0] && (a + b)[1..] == a[1..] + b;
      EscapedAppend(a[1..], b, lineSep);
      assert Escaped(a + b, lineSep) == EscapeChar(a[0], lineSep) + Escaped(a[1..] + b, lineSep);
    }
  }

  lemma {:induction false} EscapedPlain(s: string, lineSep: string)
    requires forall i :: 0 <= i < |s| ==> !IsSpecial(s[i])
    ensures Escaped(s, lineSep) == s
  {
    if s != [] {
      EscapedPlain(s[1..], lineSep);
    }
  }

  /**
   * escape(value): walks the tokens of a StringTokenizer that returns the delimiters
   * <>&"'\r\n as one-character tokens, appending the entity or the plain run.
   */
  method Escape(value: string, lineSep: string) returns (result: string)
    ensures result == Escaped(value, lineSep)
  {
    result := "";
    var i := 0;
    while i < |value|
      invariant 0 <= i <= |value|
      invariant result == Escaped(value[..i], lineSep)
    {
      var j;
      if IsSpecial(value[i]) {
        j := i + 1;
        result := result + EscapeChar(value[i], lineSep);
      } else {
        j := PlainRunEnd(value, i);
        EscapedPlain(value[i..j], lineSep);
        result := result + value[i..j];
      }
      EscapedPrefix(value, i, j, lineSep);
      i := j;
    }
    assert value[..|value|] == value;
  }

  /** The end of the run of plain characters starting at `i`. */
  method PlainRunEnd(value: string, i: nat) returns (j: nat)
    requires i <= |value|
    ensures i <= j <= |value| && forall k :: i <= k < j ==> !IsSpecial(value[k])
    ensures j == |value| || IsSpecial(value[j])
  {
    j := i;
    while j < |value| && !IsSpecial(value[j])
      invariant i <= j <= |value|
      invariant forall k :: i <= k < j ==> !IsSpecial(value[k])
    {
      j := j + 1;
    }
  }

  lemma EscapedPrefix(value: string, i: nat, j: nat, lineSep: string)
    requires i <= j <= |value|
    ensures Escaped(value[..j], lineSep) == Escaped(value[..i], lineSep) + Escaped(value[i..j], lineSep)
  {
    assert value[..j] == value[..i] + value[i..j];
    EscapedAppend(value[..i], value[i..j], lineSep);
  }

  /** On text free of the seven delimiters, escaping changes nothing. */
  lemma EscapeIdentity(s: string, lineSep: string)
    requires forall i :: 0 <= i < |s| ==> !IsSpecial(s[i])
    ensures Escaped(s, lineSep) == s
  {
    EscapedPlain(s, lineSep);
  }

  /** Characters that never survive escaping: the markup characters and the carriage return. */
  predicate IsRemoved(c: char)
  {
    c == '<' || c == '>' || c == '"' || c == '\'' || c == '\r'
  }

  /**
   * Escaped text holds no <, >, ", ' or carriage return, as long as the line separator
   * holds none (so not on a platform whose separator is "\r\n").
   */
  lemma {:induction false} EscapedHasNoMarkup(s: string, lineSep: string)
    requires forall i :: 0 <= i < |lineSep| ==> !IsRemoved(lineSep[i])
    ensures forall i :: 0 <= i < |Escaped(s, lineSep)| ==> !IsRemoved(Escaped(s, lineSep)[i])
  {
    if s != [] {
      EscapedHasNoMarkup(s[1..], lineSep);
      var e := EscapeChar(s[0], lineSep);
      assert forall i :: 0 <= i < |e| ==> !IsRemoved(e[i]);
    }
  }

  /** Decoding of the five predefined entities of XML 1.0, section 4.6: the partner of escape. */
  function Unescaped(s: string): string
  {
    if s == [] then []
    else if s[0] != '&' then [s[0]] + Unescaped(s[1..])
    else if StartsWith(s, "&lt;") then "<" + Unescaped(s[4..])
    else if StartsWith(s, "&gt;") then ">" + Unescaped(s[4..])
    else if StartsWith(s, "&amp;") then "&" + Unescaped(s[5..])
    else if StartsWith(s, "&apos;") then "'" + Unescaped(s[6..])
    else if StartsWith(s, "&quot;") then "\"" + Unescaped(s[6..])
    else [s[0]] + Unescaped(s[1..])
  }

  /**
   * With the separator "\n", decoding the escaped text gives back the original, for text
   * without carriage returns (escape drops those).
   */
  lemma {:induction false} UnescapeEscape(s: string)
    requires !ContainsChar(s, '\r')
    ensures Unescaped(Escaped(s, "\n")) == s
  {
    if s != [] {
      UnescapeEscape(s[1..]);
      UnescapeEscapeChar(s[0], Escaped(s[1..], "\n"));
    }
  }

  lemma UnescapeEscapeChar(c: char, rest: string)
    requires c != '\r'
    ensures Unescaped(EscapeChar(c, "\n") + rest) == [c] + Unescaped(rest)
  {
    if c == '<' {
      UnescapeEntity("&lt;", rest, "<");
    } else if c == '>' {
      UnescapeEntity("&gt;", rest, ">");
    } else if c == '&' {
      UnescapeEntity("&amp;", rest, "&");
    } else if c == '\'' {
      UnescapeEntity("&apos;", rest, "'");
    } else if c == '"' {
      UnescapeEntity("&quot;", rest, "\"");
    } else {
      assert ([c] + rest)[0] == c && ([c] + rest)[1..] == rest;
    }
  }

  /** An entity at the front decodes to its character. */
  lemma UnescapeEntity(e: string, rest: string, c: string)
    requires (e, c) in {("&lt;", "<"), ("&gt;", ">"), ("&amp;", "&"), ("&apos;", "'"), ("&quot;", "\"")}
    ensures Unescaped(e + rest) == c + Unescaped(rest)
  {
    var t := e + rest;
    assert t[..|e|] == e && t[|e|..] == rest;
    assert t[0] == '&' && t[1] == e[1] && t[2] == e[2];
  }

  /** The text written for one resource: `    <str id="KEY">escaped value</str>` and a separator. */
  function StrLine(id: string, value: string, lineSep: string): string
  {
    "    <str id=\"" + id + "\">" + Escaped(value, lineSep) + "</str>" + lineSep
  }

  /** A key that writeTranslations(…, printText) emits. */
  predicate Emitted(key: string, printText: bool)
  {
    StartsWith(key, TEXT_PREFIX) == printText
  }

  /** The id a key is written under: the "text." prefix is stripped in text mode. */
  function EntryId(key: string, printText: bool): string
  {
    if printText && StartsWith(key, TEXT_PREFIX) then key[|TEXT_PREFIX|..] else key
  }

  /** The keys writeTranslations(…, printText) emits from a key sequence, in order. */
  function EmittedKeys(keys: seq<string>, printText: bool): (r: seq<string>)
  {
    if keys == [] then []
    else
      var last := keys[|keys| - 1];
      EmittedKeys(keys[..|keys| - 1], printText) + (if Emitted(last, printText) then [last] else [])
  }

  lemma {:induction false} EmittedKeysMembers(keys: seq<string>, printText: bool)
    ensures forall i :: 0 <= i < |EmittedKeys(keys, printText)| ==>
      EmittedKeys(keys, printText)[i] in keys && Emitted(EmittedKeys(keys, printText)[i], printText)
  {
    if keys != [] {
      EmittedKeysMembers(keys[..|keys| - 1], printText);
    }
  }

  lemma EmittedKeysStep(keys: seq<string>, i: nat, printText: bool)
    requires i < |keys|
    ensures EmittedKeys(keys[..i + 1], printText) ==
      EmittedKeys(keys[..i], printText) + (if Emitted(keys[i], printText) then [keys[i]] else [])
  {
    assert keys[..i + 1][..i] == keys[..i];
  }

  lemma {:induction false} EmittedKeysComplete(keys: seq<string>, printText: bool)
    ensures (set k | k in EmittedKeys(keys, printText)) == (set k | k in keys && Emitted(k, printText))
  {
    if keys != [] {
      var init, last := keys[..|keys| - 1], keys[|keys| - 1];
      EmittedKeysComplete(init, printText);
      assert keys == init + [last];
      assert (set k | k in keys && Emitted(k, printText)) ==
        (set k | k in init && Emitted(k, printText)) + (if Emitted(last, printText) then {last} else {});
    }
  }

  lemma {:induction false} EmittedKeysSorted(keys: seq<string>, printText: bool)
    requires StrictlySorted(keys)
    ensures StrictlySorted(EmittedKeys(keys, printText))
  {
    if keys != [] {
      var init, last := keys[..|keys| - 1], keys[|keys| - 1];
      EmittedKeysSorted(init, printText);
      EmittedKeysMembers(init, printText);
      var front := EmittedKeys(init, printText);
      forall i | 0 <= i < |front|
        ensures Less(front[i], last)
      {
        var j :| 0 <= j < |init| && init[j] == front[i];
      }
    }
  }

  /** The lines for the given keys, in that order. */
  function Lines(keys: seq<string>, bundle: map<string, string>, printText: bool, lineSep: string): string
    requires forall i :: 0 <= i < |keys| ==> keys[i] in bundle
  {
    if keys == [] then []
    else
      var last := keys[|keys| - 1];
      Lines(keys[..|keys| - 1], bundle, printText, lineSep) + StrLine(EntryId(last, printText), bundle[last], lineSep)
  }

  /**
   * writeTranslations: visits the bundle's keys in TreeSet order, skipping those whose
   * "text." prefix disagrees with `printText`. Returns the keys emitted and the text written.
   */
  method WriteTranslations(bundle: map<string, string>, printText: bool, lineSep: string)
    returns (keys: seq<string>, text: string)
    ensures (set k | k in keys) == (set k | k in bundle && Emitted(k, printText))
    ensures StrictlySorted(keys)
    ensures forall i :: 0 <= i < |keys| ==> keys[i] in bundle
    ensures text == Lines(keys, bundle, printText, lineSep)
  {
    var sorted := SortedElements(bundle.Keys);
    keys, text := EmitLines(sorted, bundle, printText, lineSep);
    EmittedKeysComplete(sorted, printText);
    EmittedKeysSorted(sorted, printText);
  }

  /** The lines for the listed keys, in order, skipping those the mode does not emit. */
  method EmitLines(sorted: seq<string>, bundle: map<string, string>, printText: bool, lineSep: string)
    returns (keys: seq<string>, text: string)
    requires forall i :: 0 <= i < |sorted| ==> sorted[i] in bundle
    ensures keys == EmittedKeys(sorted, printText)
    ensures forall i :: 0 <= i < |keys| ==> keys[i] in bundle
    ensures text == Lines(keys, bundle, printText, lineSep)
  {
    keys, text := [], "";
    for i := 0 to |sorted|
      invariant keys == EmittedKeys(sorted[..i], printText)
      invariant forall a :: 0 <= a < |keys| ==> keys[a] in bundle
      invariant text == Lines(keys, bundle, printText, lineSep)
    {
      var key := sorted[i];
      EmittedKeysStep(sorted, i, printText);
      if Emitted(key, printText) {
        LinesSnoc(keys, key, bundle, printText, lineSep);
        text := text + StrLine(EntryId(key, printText), bundle[key], lineSep);
        keys := keys + [key];
      }
    }
    assert sorted[..|sorted|] == sorted;
  }

  lemma LinesSnoc(keys: seq<string>, key: string, bundle: map<string, string>, printText: bool, lineSep: string)
    requires forall i :: 0 <= i < |keys| ==> keys[i] in bundle
    requires key in bundle
    ensures Lines(keys + [key], bundle, printText, lineSep) ==
      Lines(keys, bundle, printText, lineSep) + StrLine(EntryId(key, printText), bundle[key], lineSep)
  {
    assert (keys + [key])[..|keys|] == keys;
  }

  /** The ids of text mode keep the order of their keys: stripping a common prefix is monotone. */
  lemma StrippedIdsKeepOrder(a: string, b: string)
    requires StartsWith(a, TEXT_PREFIX) && StartsWith(b, TEXT_PREFIX) && Less(a, b)
    ensures Less(EntryId(a, true), EntryId(b, true))
  {
    StripPrefixLess(a, b, |TEXT_PREFIX|);
  }

  lemma StripPrefixLess(a: string, b: string, n: nat)
    requires n <= |a| && n <= |b| && a[..n] == b[..n] && Less(a, b)
    ensures Less(a[n..], b[n..])
  {
    assert a == a[..n] + a[n..] && b == a[..n] + b[n..];
    LessDropPrefix(a[..n], a[n..], b[n..]);
  }

  type byte = b: int | 0 <= b < 256

  const NEWLINE: byte := 10

  /** The position just past the line starting at `pos`: after its newline, or the end. */
  function LineEnd(input: seq<byte>, pos: nat): (r: nat)
    requires pos <= |input|
    ensures pos <= r <= |input| && (pos < |input| ==> pos < r)
    ensures forall k :: pos <= k < r - 1 ==> input[k] != NEWLINE
    ensures r < |input| ==> input[r - 1] == NEWLINE
    decreases |input| - pos
  {
    if pos == |input| then pos
    else if input[pos] == NEWLINE then pos + 1
    else LineEnd(input, pos + 1)
  }

  /** A line boundary at `p`: the start or end of the input, or just after a newline. */
  predicate LineStart(input: seq<byte>, p: nat)
    requires p <= |input|
  {
    p == 0 || p == |input| || input[p - 1] == NEWLINE
  }

  /**
   * readLine(in): reads bytes up to and including the first newline. None (Java null) only
   * when no byte could be read. Returns the line and the stream position after it.
   */
  method ReadLine(input: seq<byte>, pos: nat) returns (line: Option<seq<byte>>, next: nat)
    requires pos <= |input|
    ensures next == LineEnd(input, pos)
    ensures line.None? <==> pos == |input|
    ensures line.Some? ==> line.value == input[pos..next]
  {
    var out: seq<byte> := [];
    next := pos;
    while next < |input|
      invariant pos <= next <= |input|
      invariant out == input[pos..next]
      invariant LineEnd(input, next) == LineEnd(input, pos)
    {
      var c := input[next];
      out := out + [c];
      next := next + 1;
      if c == NEWLINE {
        break;
      }
    }
    if |out| == 0 {
      line := None;
    } else {
      line := Some(out);
    }
  }

  /** new String(bytes, "ISO-8859-1"): each byte is the character with that code. */
  function Latin1(bytes: seq<byte>): (s: string)
    ensures |s| == |bytes| && forall i :: 0 <= i < |s| ==> s[i] as int == bytes[i]
  {
    if bytes == [] then [] else [bytes[0] as char] + Latin1(bytes[1..])
  }

  /** isEndOfStandardIzpackStrings: the line contains the opening comment or the closing tag. */
  predicate IsEndOfStandardStrings(line: seq<byte>)
  {
    Contains(Latin1(line), OPENING_COMMENT) || Contains(Latin1(line), CLOSING_TAG)
  }

  /** The line starting at `p` holds one of the two markers. */
  predicate EndLineAt(input: seq<byte>, p: nat)
    requires p <= |input|
  {
    IsEndOfStandardStrings(input[p..LineEnd(input, p)])
  }

  /** No line after the first that starts before `cut` holds a marker. */
  predicate NoEndLineBefore(input: seq<byte>, cut: nat)
    requires cut <= |input|
  {
    forall p :: LineEnd(input, 0) <= p < cut && LineStart(input, p) ==> !EndLineAt(input, p)
  }

  /** Passing over a line without a marker reaches the next line boundary. */
  lemma PassLine(input: seq<byte>, pos: nat)
    requires pos < |input| && LineStart(input, pos) && NoEndLineBefore(input, pos)
    requires LineEnd(input, 0) <= pos && !EndLineAt(input, pos)
    ensures LineStart(input, LineEnd(input, pos)) && NoEndLineBefore(input, LineEnd(input, pos))
  {
  }

  /**
   * The part of the old langpack that updateLangpack keeps: the first line, then every line
   * up to (not including) the first that holds one of the two markers. An empty langpack has
   * no first line: readLine gives null and writing it fails (None).
   */
  method KeptLangpackPrefix(input: seq<byte>) returns (kept: Option<seq<byte>>, cut: nat)
    ensures kept.None? <==> input == []
    ensures LineEnd(input, 0) <= cut <= |input| && LineStart(input, cut)
    ensures kept.Some? ==> kept.value == input[..cut]
    ensures cut == |input| || EndLineAt(input, cut)
    ensures NoEndLineBefore(input, cut)
  {
    var first, pos := ReadLine(input, 0);
    if first.None? {
      return None, 0;
    }
    var prefix := first.value;
    while true
      invariant LineEnd(input, 0) <= pos <= |input| && LineStart(input, pos) && prefix == input[..pos]
      invariant NoEndLineBefore(input, pos)
      decreases |input| - pos
    {
      var line, next := ReadLine(input, pos);
      if line.None? || IsEndOfStandardStrings(line.value) {
        break;
      }
      assert input[..next] == input[..pos] + input[pos..next];
      assert !EndLineAt(input, pos);
      PassLine(input, pos);
      prefix := prefix + line.value;
      pos := next;
    }
    kept, cut := Some(prefix), pos;
  }

  /** A file as listFiles() reports it: its name and lastModified(). */
  datatype FileEntry = FileEntry(name: string, lastModified: int)

  /** The bundle files that count for language `lang`. */
  predicate IsBundleFile(f: FileEntry, lang: string)
  {
    f.name == BUNDLE_NAME + ".properties" || StartsWith(f.name, BUNDLE_NAME + "_" + lang)
  }

  /** getResourceBundleDate: the newest lastModified among the bundle files, or -1 if none. */
  method ResourceBundleDate(files: seq<FileEntry>, lang: string) returns (result: int)
    ensures result >= -1
    ensures forall i :: 0 <= i < |files| && IsBundleFile(files[i], lang) ==> files[i].lastModified <= result
    ensures result == -1 || exists i :: 0 <= i < |files| && IsBundleFile(files[i], lang) && files[i].lastModified == result
  {
    result := -1;
    for i := 0 to |files|
      invariant result >= -1
      invariant forall k :: 0 <= k < i && IsBundleFile(files[k], lang) ==> files[k].lastModified <= result
      invariant result == -1 || exists k :: 0 <= k < i && IsBundleFile(files[k], lang) && files[k].lastModified == result
    {
      if IsBundleFile(files[i], lang) {
        result := if files[i].lastModified > result then files[i].lastModified else result;
      }
    }
  }

  /**
   * noUpdatesNeeded: true iff the langpack and the text file are both strictly newer than
   * every bundle file (and than -1, the date when there is none).
   */
  method NoUpdatesNeeded(files: seq<FileEntry>, lang: string, langpackDate: int, textfileDate: int)
    returns (r: bool)
    ensures r <==> (langpackDate > -1 && textfileDate > -1 &&
      forall i :: 0 <= i < |files| && IsBundleFile(files[i], lang) ==>
        langpackDate > files[i].lastModified && textfileDate > files[i].lastModified)
  {
    var bundleDate := ResourceBundleDate(files, lang);
    r := langpackDate > bundleDate && textfileDate > bundleDate;
  }
}
