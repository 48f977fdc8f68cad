/**
 * The WBS data writer: the XML file read by the logic that synchronizes individual
 * dashboards with the work breakdown structure. Each node becomes an element named after
 * its translated type, carrying its name and ID and, by type, its phase, team member times
 * and size attributes; children are nested one tab deeper.
 *
 * The tree shape is the outline of indentation levels `L` (WBSTree.Children). What the data
 * model and the process report for each node is given as a `NodeData` per position; attribute
 * escaping (XMLUtils.escapeAttribute) and the process's phase types are parameters.
 */
module WBSDataWriters {
  import opened Wrappers
  import opened Strings
  import opened WBSTree

  const SizeAttrNames: seq<string> := ["sizeBase", "sizeDel", "sizeMod", "sizeAdd", "sizeReu", "sizeNC"]
  const Header: string := "<?xml version='1.0' encoding='UTF-8'?>\n"

  /** What the data model reports for one node: its type, name and ID, each team member
    * column's name with the text of its value, the size units (if any) and the six sizes. */
  datatype NodeData = NodeData(nodeType: string, name: Option<string>, uniqueID: int,
                               times: seq<(string, string)>, units: Option<string>,
                               sizes: seq<Option<string>>)

  /** translateType: the element name for a node type. "PSP Task" is checked before the
    * " Task" suffix, and every other type falls back to a task. */
  function TranslateType(t: string): (r: string)
    ensures r == "project" <==> t == "Project"
    ensures r == "component" <==> t == "Software Component"
    ensures r == "document" <==> EndsWith(t, " Document")
    ensures r == "psp" <==> t == "PSP Task"
    ensures r == "task" <==> t != "Project" && t != "Software Component" && !EndsWith(t, " Document") && t != "PSP Task"
  {
    if t == "Project" then "project"
    else if t == "Software Component" then "component"
    else if EndsWith(t, " Document") then "document"
    else if t == "PSP Task" then "psp"
    else "task"
  }

  /** The phase of a task: its type without the trailing " Task". */
  function PhaseName(t: string): (r: string)
    requires EndsWith(t, " Task")
    ensures r + " Task" == t
  {
    t[..|t| - 5]
  }

  /** formatSize: "0" for a missing or empty size, else its text. */
  function FormatSize(size: Option<string>): (r: string)
    ensures r != ""
    ensures size.Some? && size.value != "" ==> r == size.value
    ensures size.None? || size.value == "" ==> r == "0"
  {
    if size.None? || size.value == "" then "0" else size.value
  }

  /** A team member time that is left out of the time attribute. */
  predicate Skipped(time: string)
  {
    time == "null" || time == "0" || time == "0.0"
  }

  /** The ",name=time" segments of the first `n` team member columns that are not skipped. */
  function Segments(times: seq<(string, string)>, n: nat): string
    requires n <= |times|
  {
    if n == 0 then ""
    else if Skipped(times[n - 1].1) then Segments(times, n - 1)
    else Segments(times, n - 1) + "," + times[n - 1].0 + "=" + times[n - 1].1
  }

  /** getTeamMemberTimes: the segments with a trailing comma, none when all are skipped. */
  function TeamTimes(times: seq<(string, string)>): Option<string>
  {
    var s := Segments(times, |times|);
    if s == "" then None else Some(s + ",")
  }

  /** The times are left out exactly when every team member time is skipped; otherwise the
    * text starts and ends with a comma. */
  lemma {:induction false} TeamTimesShape(times: seq<(string, string)>, n: nat)
    requires n <= |times|
    ensures Segments(times, n) == "" <==> forall i :: 0 <= i < n ==> Skipped(times[i].1)
    ensures Segments(times, n) != "" ==> Segments(times, n)[0] == ','
  {
    if n > 0 {
      TeamTimesShape(times, n - 1);
      if !Skipped(times[n - 1].1) {
        var s := Segments(times, n);
        assert s == Segments(times, n - 1) + "," + times[n - 1].0 + "=" + times[n - 1].1;
        assert s != "";
        if Segments(times, n - 1) == "" {
          assert s[0] == ',';
        } else {
          assert s[0] == Segments(times, n - 1)[0];
        }
      }
    }
  }

  lemma TeamTimesSpec(times: seq<(string, string)>)
    ensures TeamTimes(times).None? <==> forall i :: 0 <= i < |times| ==> Skipped(times[i].1)
    ensures TeamTimes(times).Some? ==>
              var s := TeamTimes(times).value; |s| >= 2 && s[0] == ',' && s[|s| - 1] == ','
  {
    TeamTimesShape(times, |times|);
  }

  /** writeAttr: nothing for a missing value, else ` name='escaped value'`. */
  function AttrText(esc: string -> string, name: string, value: Option<string>): (r: string)
    ensures value.None? <==> r == ""
    ensures value.Some? ==> r == " " + name + "='" + esc(value.value) + "'"
  {
    if value.None? then "" else " " + name + "='" + esc(value.value) + "'"
  }

  /** `n` tab characters. */
  function Tabs(n: nat): (r: string)
    ensures |r| == n && forall i :: 0 <= i < n ==> r[i] == '\t'
  {
    if n == 0 then "" else Tabs(n - 1) + "\t"
  }

  /** The size attributes of the first `n` size columns. */
  function SizesUpTo(esc: string -> string, sizes: seq<Option<string>>, n: nat): string
    requires n <= |sizes| && n <= |SizeAttrNames|
  {
    if n == 0 then ""
    else SizesUpTo(esc, sizes, n - 1) + AttrText(esc, SizeAttrNames[n - 1], Some(FormatSize(sizes[n - 1])))
  }

  /** maybeWriteSizeAttrs: nothing without size units, else the units and all six sizes. */
  function SizeAttrs(esc: string -> string, d: NodeData): string
    requires |d.sizes| == |SizeAttrNames|
  {
    if d.units.None? then ""
    else AttrText(esc, "sizeUnits", d.units) + SizesUpTo(esc, d.sizes, |SizeAttrNames|)
  }

  /** The attributes an element's AttributeWriter adds after its name and ID. */
  function TypeAttrs(esc: string -> string, phaseType: string -> Option<string>, d: NodeData): string
    requires |d.sizes| == |SizeAttrNames|
  {
    var tag := TranslateType(d.nodeType);
    if tag == "component" || tag == "document" then SizeAttrs(esc, d)
    else if tag == "task" then
      if !EndsWith(d.nodeType, " Task") then ""
      else
        var phase := PhaseName(d.nodeType);
        AttrText(esc, "phaseName", Some(phase)) + AttrText(esc, "phaseType", phaseType(phase)) +
        AttrText(esc, "time", TeamTimes(d.times))
    else if tag == "psp" then AttrText(esc, "time", TeamTimes(d.times)) + SizeAttrs(esc, d)
    else ""
  }

  /** Node data for every position, each with six sizes. */
  predicate Complete(L: seq<int>, D: seq<NodeData>)
  {
    |D| == |L| && forall p :: 0 <= p < |D| ==> |D[p].sizes| == |SizeAttrNames|
  }

  /** The start tag of a node's element, up to its attributes. */
  function OpenTag(esc: string -> string, phaseType: string -> Option<string>, d: NodeData, depth: nat): string
    requires |d.sizes| == |SizeAttrNames|
  {
    Tabs(depth) + ("<" + TranslateType(d.nodeType)) + AttrText(esc, "name", d.name) +
    AttrText(esc, "id", Some(IntToString(d.uniqueID))) + TypeAttrs(esc, phaseType, d)
  }

  /** The element written for the node at position `p`, indented by `depth` tabs. */
  function NodeXml(esc: string -> string, phaseType: string -> Option<string>, L: seq<int>,
                   D: seq<NodeData>, p: nat, depth: nat): string
    requires p < |L| && Complete(L, D)
    decreases |L| - p, 1
  {
    var tag := TranslateType(D[p].nodeType);
    var cs := Children(L, p);
    var head := OpenTag(esc, phaseType, D[p], depth);
    if |cs| == 0 then head + "/>\n"
    else head + ">\n" + ChildrenXml(esc, phaseType, L, D, p, |cs|, depth + 1) + Tabs(depth) + ("</" + tag + ">\n")
  }

  /** The elements of the first `i` children of `p`, each indented by `depth` tabs. */
  function ChildrenXml(esc: string -> string, phaseType: string -> Option<string>, L: seq<int>,
                       D: seq<NodeData>, p: nat, i: nat, depth: nat): string
    requires p < |L| && Complete(L, D) && i <= |Children(L, p)|
    decreases |L| - p, 0, i
  {
    if i == 0 then ""
    else ChildrenXml(esc, phaseType, L, D, p, i - 1, depth) + NodeXml(esc, phaseType, L, D, Children(L, p)[i - 1], depth)
  }

  /** Every element name ends with a letter. */
  lemma TagEndsWithLetter(t: string)
    ensures var tag := TranslateType(t); |tag| > 0 && 'a' <= tag[|tag| - 1] <= 'z'
  {
  }

  /** A node is written as a self-closing element exactly when it has no children. */
  lemma SelfClosingIffLeaf(esc: string -> string, phaseType: string -> Option<string>, L: seq<int>,
                           D: seq<NodeData>, p: nat, depth: nat)
    requires p < |L| && Complete(L, D)
    ensures EndsWith(NodeXml(esc, phaseType, L, D, p, depth), "/>\n") <==> |Children(L, p)| == 0
  {
    var s := NodeXml(esc, phaseType, L, D, p, depth);
    var tag := TranslateType(D[p].nodeType);
    var cs := Children(L, p);
    var head := OpenTag(esc, phaseType, D[p], depth);
    if |cs| == 0 {
      assert s[|s| - 3..] == "/>\n";
    } else {
      var close := "</" + tag + ">\n";
      var body := head + ">\n" + ChildrenXml(esc, phaseType, L, D, p, |cs|, depth + 1) + Tabs(depth);
      assert s == body + close;
      TagEndsWithLetter(D[p].nodeType);
      assert s[|s| - 3] == close[|close| - 3] == tag[|tag| - 1];
    }
  }

  lemma AppendAssoc(a: string, b: string, c: string)
    ensures (a + b) + c == a + (b + c)
  {
  }

  class WBSDataWriter {
    /** The outline levels of the WBS, and the data of each of its nodes. */
    const L: seq<int>
    const D: seq<NodeData>
    const esc: string -> string
    const phaseType: string -> Option<string>
    /** Everything written so far. */
    var out: string

    constructor (levels: seq<int>, data: seq<NodeData>, escape: string -> string,
                 phaseTypes: string -> Option<string>)
      ensures L == levels && D == data && esc == escape && phaseType == phaseTypes && out == ""
    {
      L, D, esc, phaseType := levels, data, escape, phaseTypes;
      out := "";
    }

    /** write(out): the XML header, then the root's element at depth 0. */
    method Write()
      requires WellFormed(L) && Complete(L, D)
      modifies this`out
      ensures out == old(out) + Header + NodeXml(esc, phaseType, L, D, 0, 0)
    {
      out := out + Header;
      WriteNode(0, 0);
    }

    /** write(out, node, depth): the node's start tag, then a self-closing end or the children
      * one level deeper followed by the indented end tag. */
    method WriteNode(p: nat, depth: nat)
      requires p < |L| && Complete(L, D)
      modifies this`out
      ensures out == old(out) + NodeXml(esc, phaseType, L, D, p, depth)
      decreases |L| - p, 1
    {
      var d := D[p];
      var nodeType := TranslateType(d.nodeType);
      ghost var o := out;
      WriteIndent(depth);
      out := out + ("<" + nodeType);
      AppendAssoc(o, Tabs(depth), "<" + nodeType);
      ghost var w := Tabs(depth) + ("<" + nodeType);
      WriteAttr("name", d.name);
      AppendAssoc(o, w, AttrText(esc, "name", d.name));
      w := w + AttrText(esc, "name", d.name);
      WriteAttr("id", Some(IntToString(d.uniqueID)));
      AppendAssoc(o, w, AttrText(esc, "id", Some(IntToString(d.uniqueID))));
      w := w + AttrText(esc, "id", Some(IntToString(d.uniqueID)));
      WriteTypeAttrs(d);
      AppendAssoc(o, w, TypeAttrs(esc, phaseType, d));
      w := w + TypeAttrs(esc, phaseType, d);
      assert w == OpenTag(esc, phaseType, d, depth);
      var children := Children(L, p);
      if |children| == 0 {
        out := out + "/>\n";
        AppendAssoc(o, w, "/>\n");
      } else {
        out := out + ">\n";
        AppendAssoc(o, w, ">\n");
        w := w + ">\n";
        WriteChildren(p, depth + 1);
        AppendAssoc(o, w, ChildrenXml(esc, phaseType, L, D, p, |children|, depth + 1));
        w := w + ChildrenXml(esc, phaseType, L, D, p, |children|, depth + 1);
        WriteIndent(depth);
        AppendAssoc(o, w, Tabs(depth));
        w := w + Tabs(depth);
        out := out + ("</" + nodeType + ">\n");
        AppendAssoc(o, w, "</" + nodeType + ">\n");
      }
    }

    /** The children of `p`, in order, each at `depth`. */
    method WriteChildren(p: nat, depth: nat)
      requires p < |L| && Complete(L, D)
      modifies this`out
      ensures out == old(out) + ChildrenXml(esc, phaseType, L, D, p, |Children(L, p)|, depth)
      decreases |L| - p, 0
    {
      var children := Children(L, p);
      for i := 0 to |children|
        invariant out == old(out) + ChildrenXml(esc, phaseType, L, D, p, i, depth)
      {
        WriteNode(children[i], depth);
        AppendAssoc(old(out), ChildrenXml(esc, phaseType, L, D, p, i, depth), NodeXml(esc, phaseType, L, D, children[i], depth));
      }
    }

    /** writeIndent: `depth` tabs. */
    method WriteIndent(depth: nat)
      modifies this`out
      ensures out == old(out) + Tabs(depth)
    {
      for i := 0 to depth
        invariant out == old(out) + Tabs(i)
      {
        out := out + "\t";
      }
    }

    /** writeAttr: nothing for a missing value. */
    method WriteAttr(name: string, value: Option<string>)
      modifies this`out
      ensures out == old(out) + AttrText(esc, name, value)
    {
      if value.None? {
        return;
      }
      out := out + " " + name + "='" + esc(value.value) + "'";
    }

    /** The AttributeWriter registered for the node's element name, if any. */
    method WriteTypeAttrs(d: NodeData)
      requires |d.sizes| == |SizeAttrNames|
      modifies this`out
      ensures out == old(out) + TypeAttrs(esc, phaseType, d)
    {
      var tag := TranslateType(d.nodeType);
      if tag == "component" || tag == "document" {
        MaybeWriteSizeAttrs(d);
      } else if tag == "task" {
        if !EndsWith(d.nodeType, " Task") {
          return;
        }
        var phaseName := d.nodeType[..|d.nodeType| - 5];
        ghost var o := out;
        WriteAttr("phaseName", Some(phaseName));
        WriteAttr("phaseType", phaseType(phaseName));
        AppendAssoc(o, AttrText(esc, "phaseName", Some(phaseName)), AttrText(esc, "phaseType", phaseType(phaseName)));
        ghost var w := AttrText(esc, "phaseName", Some(phaseName)) + AttrText(esc, "phaseType", phaseType(phaseName));
        var times := GetTeamMemberTimes(d.times);
        WriteAttr("time", times);
        AppendAssoc(o, w, AttrText(esc, "time", times));
      } else if tag == "psp" {
        var times := GetTeamMemberTimes(d.times);
        ghost var o := out;
        WriteAttr("time", times);
        MaybeWriteSizeAttrs(d);
        AppendAssoc(o, AttrText(esc, "time", times), SizeAttrs(esc, d));
      }
    }

    /** maybeWriteSizeAttrs: the units and the six formatted sizes, when there are units. */
    method MaybeWriteSizeAttrs(d: NodeData)
      requires |d.sizes| == |SizeAttrNames|
      modifies this`out
      ensures out == old(out) + SizeAttrs(esc, d)
    {
      if d.units.None? {
        return;
      }
      WriteAttr("sizeUnits", d.units);
      ghost var w := AttrText(esc, "sizeUnits", d.units);
      for i := 0 to |SizeAttrNames|
        invariant out == old(out) + (w + SizesUpTo(esc, d.sizes, i))
      {
        ghost var piece := AttrText(esc, SizeAttrNames[i], Some(FormatSize(d.sizes[i])));
        WriteAttr(SizeAttrNames[i], Some(FormatSize(d.sizes[i])));
        AppendAssoc(old(out), w + SizesUpTo(esc, d.sizes, i), piece);
        AppendAssoc(w, SizesUpTo(esc, d.sizes, i), piece);
      }
    }
  }

  /** getTeamMemberTimes: the ",name=time" segments of the times that are not skipped,
    * closed by a comma, or none at all. */
  method GetTeamMemberTimes(times: seq<(string, string)>) returns (r: Option<string>)
    ensures r == TeamTimes(times)
  {
    var result := "";
    for i := 0 to |times|
      invariant result == Segments(times, i)
    {
      var (column, time) := times[i];
      if Skipped(time) {
        continue;
      }
      result := result + "," + column + "=" + time;
    }
    if |result| == 0 {
      return None;
    }
    result := result + ",";
    return Some(result);
  }
}
