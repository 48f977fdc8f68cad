/**
 * A node of the work breakdown structure: name, unique ID, type, indentation level,
 * expanded and read-only flags, and a map of named attributes. An attribute value is a
 * String or an Integer (the two kinds the outline code stores); a null value is None.
 */
module WBSNodes {
  import opened Wrappers
  import opened Strings

  const ELEMENT_NAME: string := "wbsNode"
  /** The length of the SPACES constant the XML indentation is cut from. */
  const SPACES_LENGTH: nat := 60

  /** The attribute values the outline code stores: String and Integer objects. */
  datatype AttrValue = Text(text: string) | Integer(number: int)
  {
    /** toString() of the value. */
    function ToText(): string
    {
      match this
      case Text(s) => s
      case Integer(n) => IntToString(n)
    }
  }

  type Attributes = map<string, Option<AttrValue>>

  /** A snapshot of every field of a node. */
  datatype NodeState = NodeState(
    name: string, uniqueID: int, nodeType: Option<string>, indentLevel: int,
    expanded: bool, readOnly: bool, attributes: Attributes)

  /** An attribute that cloning discards: a name with an underscore and no at-sign. */
  predicate IsTransient(attrName: string)
  {
    ContainsChar(attrName, '_') && !ContainsChar(attrName, '@')
  }

  /** The attribute map of a clone. */
  function WithoutTransient(attrs: Attributes): Attributes
  {
    map k | k in attrs && !IsTransient(k) :: attrs[k]
  }

  /** The state of a clone of a node in state `s`. */
  function CloneState(s: NodeState): NodeState
  {
    s.(attributes := WithoutTransient(s.attributes))
  }

  /** Cloning a clone changes nothing more. */
  lemma CloneStateIdempotent(s: NodeState)
    ensures CloneState(CloneState(s)) == CloneState(s)
  {
  }

  /** A clone keeps every non-transient attribute with its value and nothing else. */
  lemma CloneKeepsExactlyNonTransient(s: NodeState, k: string)
    ensures k in CloneState(s).attributes <==> k in s.attributes && !IsTransient(k)
    ensures k in CloneState(s).attributes ==> CloneState(s).attributes[k] == s.attributes[k]
  {
  }

  /** The iterator loop of clone: removes, from the copied map, every transient key. */
  method StripTransient(attrs: Attributes) returns (result: Attributes)
    ensures result == WithoutTransient(attrs)
  {
    result := attrs;
    var keys := attrs.Keys;
    while keys != {}
      invariant keys <= attrs.Keys
      invariant result == map k | k in attrs && (k in keys || !IsTransient(k)) :: attrs[k]
      decreases |keys|
    {
      var k :| k in keys;
      if IsTransient(k) {
        result := result - {k};
      }
      keys := keys - {k};
    }
  }

  // ----- XML text -----

  function Spaces(n: nat): (r: string)
    ensures |r| == n && forall i :: 0 <= i < n ==> r[i] == ' '
  {
    seq(n, _ => ' ')
  }

  /** The indentation of a node's lines: the first min(2*(level+1), 60) characters of SPACES,
    * or None when that count is negative (substring throws). */
  function Indentation(level: int): Option<string>
  {
    var count := if 2 * (level + 1) < SPACES_LENGTH then 2 * (level + 1) else SPACES_LENGTH;
    if count < 0 then None else Some(Spaces(count))
  }

  /** The opening tag up to its closing quote, without the closing '>' or '/>'. */
  function OpenTag(s: NodeState, esc: string -> string): string
  {
    "<" + ELEMENT_NAME + " name='" + esc(s.name) + "' id='" + IntToString(s.uniqueID)
    + (if s.nodeType.Some? then "' type='" + esc(s.nodeType.value) else "")
    + "' indentLevel='" + IntToString(s.indentLevel)
    + (if s.expanded then "' expanded='true" else "")
    + (if s.readOnly then "' readOnly='true" else "")
    + "'"
  }

  /** Whether an attribute gets its own line: transient-looking names only when `full`, and
    * never a null or empty value. */
  predicate Written(attrName: string, value: Option<AttrValue>, full: bool)
  {
    (full || !ContainsChar(attrName, '_')) && value.Some? && |value.value.ToText()| > 0
  }

  /** The names, in iteration order, whose attributes are written. */
  function WrittenNames(attrs: Attributes, order: seq<string>, full: bool): (r: seq<string>)
    ensures |r| <= |order|
  {
    if order == [] then []
    else
      var rest := WrittenNames(attrs, order[..|order| - 1], full);
      var k := order[|order| - 1];
      if k in attrs && Written(k, attrs[k], full) then rest + [k] else rest
  }

  /** The `attr` element of one attribute, preceded by the '>' that closes the previous tag. */
  function AttrLine(indentation: string, attrName: string, value: string, esc: string -> string): string
  {
    ">\n" + indentation + "  <attr name='" + esc(attrName) + "' value='" + esc(value) + "'/"
  }

  function AttrLines(indentation: string, attrs: Attributes, order: seq<string>, full: bool,
                     esc: string -> string): string
  {
    if order == [] then ""
    else
      var rest := AttrLines(indentation, attrs, order[..|order| - 1], full, esc);
      var k := order[|order| - 1];
      if k in attrs && Written(k, attrs[k], full) then rest + AttrLine(indentation, k, attrs[k].value.ToText(), esc)
      else rest
  }

  /** getAsXML(out, full) for attributes iterated in `order`; None when the indentation
    * cannot be cut. */
  function NodeXml(s: NodeState, full: bool, order: seq<string>, esc: string -> string): Option<string>
  {
    match Indentation(s.indentLevel)
    case None => None
    case Some(ind) =>
      var body := ind + OpenTag(s, esc) + AttrLines(ind, s.attributes, order, full, esc);
      if WrittenNames(s.attributes, order, full) == [] then Some(body + "/>\n")
      else Some(body + ">\n" + ind + "</" + ELEMENT_NAME + ">\n")
  }

  /** `order` lists every attribute name exactly once (the HashMap's iteration order). */
  predicate IsIterationOrder(order: seq<string>, attrs: Attributes)
  {
    (forall k :: k in attrs ==> k in order) && (forall k :: k in order ==> k in attrs) &&
    (forall i, j :: 0 <= i < j < |order| ==> order[i] != order[j])
  }

  /** The line indent is min(2*(level+1), 60) spaces for every level from -1 up. */
  lemma IndentationWidth(level: int)
    requires level >= -1
    ensures Indentation(level).Some?
    ensures |Indentation(level).value| == (if 2 * (level + 1) < 60 then 2 * (level + 1) else 60)
    ensures forall i :: 0 <= i < |Indentation(level).value| ==> Indentation(level).value[i] == ' '
  {
  }

  /** The written attributes are exactly those, among the listed names, that have a non-empty
    * value and, unless `full`, no underscore in their name. */
  lemma {:induction false} WrittenNamesSpec(attrs: Attributes, order: seq<string>, full: bool, k: string)
    ensures k in WrittenNames(attrs, order, full) <==> k in order && k in attrs && Written(k, attrs[k], full)
  {
    if order != [] {
      var init := order[..|order| - 1];
      WrittenNamesSpec(attrs, init, full, k);
      assert order == init + [order[|order| - 1]];
    }
  }

  /** A node without written attributes is one self-closing tag; otherwise the element ends
    * with an indented closing tag. */
  lemma SelfClosingIffNoAttributes(s: NodeState, full: bool, order: seq<string>, esc: string -> string)
    requires NodeXml(s, full, order, esc).Some?
    ensures WrittenNames(s.attributes, order, full) == [] ==>
      NodeXml(s, full, order, esc).value == Indentation(s.indentLevel).value + OpenTag(s, esc) + "/>\n"
    ensures WrittenNames(s.attributes, order, full) != [] ==>
      EndsWith(NodeXml(s, full, order, esc).value, Indentation(s.indentLevel).value + "</wbsNode>\n")
  {
    AttrLinesEmpty(Indentation(s.indentLevel).value, s.attributes, order, full, esc);
  }

  lemma {:induction false} AttrLinesEmpty(ind: string, attrs: Attributes, order: seq<string>, full: bool,
                                          esc: string -> string)
    ensures WrittenNames(attrs, order, full) == [] ==> AttrLines(ind, attrs, order, full, esc) == ""
  {
    if order != [] {
      AttrLinesEmpty(ind, attrs, order[..|order| - 1], full, esc);
    }
  }

  class WBSNode {
    var name: string
    var uniqueID: int
    var nodeType: Option<string>
    var indentLevel: int
    var expanded: bool
    var readOnly: bool
    var attributes: Attributes

    /** A new node: not yet unique (ID -1) and not read-only. */
    constructor (name: string, nodeType: Option<string>, level: int, expanded: bool)
      ensures State() == NodeState(name, -1, nodeType, level, expanded, false, map[])
    {
      this.name := name;
      this.uniqueID := -1;
      this.nodeType := nodeType;
      this.indentLevel := level;
      this.expanded := expanded;
      this.readOnly := false;
      this.attributes := map[];
    }

    function State(): NodeState
      reads this
    {
      NodeState(name, uniqueID, nodeType, indentLevel, expanded, readOnly, attributes)
    }

    /** getAttribute: None for an attribute never set or set to null. */
    function GetAttribute(attrName: string): Option<AttrValue>
      reads this
    {
      if attrName in attributes then attributes[attrName] else None
    }

    /** setAttribute: the attribute reads back as `value`; every other one is unchanged. */
    method SetAttribute(attrName: string, value: Option<AttrValue>)
      modifies this
      ensures attributes == old(attributes)[attrName := value]
      ensures GetAttribute(attrName) == value
      ensures forall k :: k != attrName ==> GetAttribute(k) == old(GetAttribute(k))
      ensures State() == old(State()).(attributes := attributes)
    {
      attributes := attributes[attrName := value];
    }

    /** clone: a new node with the same fields and a copy of the attribute map without its
      * transient attributes; this node is untouched. */
    method Clone() returns (c: WBSNode)
      ensures fresh(c)
      ensures c.State() == CloneState(State())
      ensures State() == old(State())
    {
      c := new WBSNode(name, nodeType, indentLevel, expanded);
      c.uniqueID := uniqueID;
      c.readOnly := readOnly;
      c.attributes := StripTransient(attributes);
    }

    /** getAsXML(out, full), with the attribute map iterated in `order`. */
    method GetAsXML(full: bool, order: seq<string>, esc: string -> string) returns (out: Option<string>)
      requires IsIterationOrder(order, attributes)
      ensures out == NodeXml(State(), full, order, esc)
    {
      var indentation := Indentation(indentLevel);
      if indentation.None? {
        return None;
      }
      var ind := indentation.value;
      var open := OpenTag(State(), esc);
      var lines, wroteAttribute := WriteAttributes(ind, attributes, order, full, esc);
      var text := ind + open + lines;
      if !wroteAttribute {
        text := text + "/>\n";
      } else {
        text := text + ">\n" + ind + "</" + ELEMENT_NAME + ">\n";
      }
      return Some(text);
    }
  }

  /** The attribute loop of getAsXML: one `attr` element per written attribute, in iteration
    * order, and whether any was written. */
  method WriteAttributes(ind: string, attrs: Attributes, order: seq<string>, full: bool, esc: string -> string)
    returns (lines: string, wroteAttribute: bool)
    requires forall k :: k in order ==> k in attrs
    ensures lines == AttrLines(ind, attrs, order, full, esc)
    ensures wroteAttribute <==> WrittenNames(attrs, order, full) != []
  {
    lines := "";
    wroteAttribute := false;
    for i := 0 to |order|
      invariant lines == AttrLines(ind, attrs, order[..i], full, esc)
      invariant wroteAttribute <==> WrittenNames(attrs, order[..i], full) != []
    {
      var k := order[i];
      assert order[..i + 1][..i] == order[..i];
      var v := attrs[k];
      if Written(k, v, full) {
        lines := lines + AttrLine(ind, k, v.value.ToText(), esc);
        wroteAttribute := true;
      }
    }
    assert order[..|order|] == order;
  }

  /** clone's contract as a relation between two nodes. */
  predicate IsCloneOf(c: WBSNode, n: WBSNode)
    reads c, n
  {
    c.State() == CloneState(n.State())
  }

  /** cloneNodeList: new nodes, one clone per input node, in the same order. */
  method CloneNodeList(nodes: seq<WBSNode>) returns (result: seq<WBSNode>)
    ensures |result| == |nodes|
    ensures forall i :: 0 <= i < |result| ==> fresh(result[i]) && IsCloneOf(result[i], nodes[i])
    ensures forall i, j :: 0 <= i < j < |result| ==> result[i] != result[j]
  {
    result := [];
    for i := 0 to |nodes|
      invariant |result| == i
      invariant forall j :: 0 <= j < i ==> fresh(result[j]) && IsCloneOf(result[j], nodes[j])
      invariant forall j, k :: 0 <= j < k < i ==> result[j] != result[k]
    {
      var c := nodes[i].Clone();
      result := result + [c];
    }
  }
}
