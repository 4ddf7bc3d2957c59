/**
 A reader of the text that the JSON writer makes. It knows only the characters of the text, and gives back
 the tree that was written, for every layout with blank line feeds.
 */
module JsonReader {
  import opened JsonText
  import opened Wrappers

  predicate Blank(c: char) { c == ' ' || c == '\n' || c == '\r' || c == '\t' }

  /** Where a value that is not quoted ends. */
  predicate EndsValue(c: char) { Blank(c) || c == ',' || c == '}' || c == ']' }

  datatype Split = Split(head: string, rest: string)
  datatype ValueRead = ValueRead(value: Value, rest: string)
  datatype NodeRead = NodeRead(node: Node, rest: string)
  datatype NodesRead = NodesRead(nodes: seq<Node>, rest: string)

  function SkipBlank(s: string): (r: string)
    ensures |r| <= |s|
  {
    if |s| > 0 && Blank(s[0]) then SkipBlank(s[1..]) else s
  }

  function UntilQuote(s: string): (r: Option<Split>)
    ensures r.Some? ==> |r.value.rest| < |s|
  {
    if |s| == 0 then None
    else if s[0] == '"' then Some(Split("", s[1..]))
    else
      var r := UntilQuote(s[1..]);
      if r.None? then None else Some(Split([s[0]] + r.value.head, r.value.rest))
  }

  function UntilEnd(s: string): (r: Split)
    ensures |r.head| + |r.rest| == |s|
  {
    if |s| == 0 || EndsValue(s[0]) then Split("", s)
    else
      var r := UntilEnd(s[1..]);
      Split([s[0]] + r.head, r.rest)
  }

  function ReadValue(s: string): (r: Option<ValueRead>)
    ensures r.Some? ==> |r.value.rest| < |s|
    decreases |s|, 0
  {
    if |s| == 0 then None
    else if s[0] == '"' then
      var q := UntilQuote(s[1..]);
      if q.None? then None else Some(ValueRead(Text(Some(q.value.head)), q.value.rest))
    else if s[0] == '{' then
      var n := ReadNodes(SkipBlank(s[1..]), true);
      if n.None? then None else Some(ValueRead(Dict(n.value.nodes), n.value.rest))
    else if s[0] == '[' then
      var n := ReadNodes(SkipBlank(s[1..]), false);
      if n.None? then None else Some(ValueRead(List(|n.value.nodes|, n.value.nodes), n.value.rest))
    else
      var r := UntilEnd(s);
      if r.head == "" then None else Some(ValueRead(Simple(r.head), r.rest))
  }

  /** A value, with its name in front of it in a dictionary. */
  function ReadNode(s: string, named: bool): (r: Option<NodeRead>)
    ensures r.Some? ==> |r.value.rest| < |s|
    decreases |s|, 1
  {
    if !named then
      var v := ReadValue(s);
      if v.None? then None else Some(NodeRead(Node("", v.value.value), v.value.rest))
    else if |s| == 0 || s[0] != '"' then None
    else
      var q := UntilQuote(s[1..]);
      if q.None? || !(" : " <= q.value.rest) then None
      else
        var v := ReadValue(q.value.rest[3..]);
        if v.None? then None else Some(NodeRead(Node(q.value.head, v.value.value), v.value.rest))
  }

  function Close(named: bool): char { if named then '}' else ']' }

  function ReadNodes(s: string, named: bool): (r: Option<NodesRead>)
    ensures r.Some? ==> |r.value.rest| < |s|
    decreases |s|, 3
  {
    if |s| > 0 && s[0] == Close(named) then Some(NodesRead([], s[1..])) else ReadMore(s, named)
  }

  /** At least one node, up to the end of the element. */
  function ReadMore(s: string, named: bool): (r: Option<NodesRead>)
    ensures r.Some? ==> |r.value.rest| < |s|
    decreases |s|, 2
  {
    var n := ReadNode(s, named);
    if n.None? then None
    else if |n.value.rest| > 0 && n.value.rest[0] == ',' then
      var m := ReadMore(SkipBlank(n.value.rest[1..]), named);
      if m.None? then None else Some(NodesRead([n.value.node] + m.value.nodes, m.value.rest))
    else
      var e := SkipBlank(n.value.rest);
      if |e| > 0 && e[0] == Close(named) then Some(NodesRead([n.value.node], e[1..])) else None
  }

  // ---- What can be read back ----

  predicate AllBlank(s: string) { forall c :: c in s ==> Blank(c) }

  /** No quotes in names and strings, since the writer does not escape them, and nothing that ends or begins
      another value in plain text. */
  ghost predicate Readable(v: Value)
    decreases v
  {
    match v
    case Simple(text) =>
      && |text| > 0 && text[0] != '"' && text[0] != '{' && text[0] != '['
      && forall c :: c in text ==> !EndsValue(c)
    case Text(val) => val.Some? ==> '"' !in val.value
    case Dict(entries) => forall i :: 0 <= i < |entries| ==> ReadableNode(entries[i], true)
    case List(_, items) => forall i :: 0 <= i < |items| ==> ReadableNode(items[i], false)
  }

  ghost predicate ReadableNode(node: Node, named: bool)
    decreases node
  {
    (named ==> '"' !in node.name) && Readable(node.value)
  }

  /** The tree as the text shows it: no null strings, and no names in lists. */
  function Shown(v: Value): Value
    decreases v
  {
    match v
    case Simple(text) => v
    case Text(val) => Text(Some(if val.Some? then val.value else ""))
    case Dict(entries) => Dict(ShownNodes(entries, true))
    case List(_, items) => List(|items|, ShownNodes(items, false))
  }

  function ShownNodes(nodes: seq<Node>, named: bool): (r: seq<Node>)
    ensures |r| == |nodes|
    decreases nodes
  {
    if |nodes| == 0 then [] else [ShownNode(nodes[0], named)] + ShownNodes(nodes[1..], named)
  }

  function ShownNode(node: Node, named: bool): Node
    decreases node
  {
    Node(if named then node.name else "", Shown(node.value))
  }

  // ---- The pieces ----

  lemma {:induction false} SkipBlanks(b: string, s: string)
    requires AllBlank(b) && (|s| > 0 ==> !Blank(s[0]))
    ensures SkipBlank(b + s) == s
    decreases |b|
  {
    if |b| == 0 {
      assert b + s == s;
    } else {
      assert (b + s)[1..] == b[1..] + s;
      SkipBlanks(b[1..], s);
    }
  }

  lemma {:induction false} QuotedPart(t: string, rest: string)
    requires '"' !in t
    ensures UntilQuote(t + "\"" + rest) == Some(Split(t, rest))
    decreases |t|
  {
    var s := t + "\"" + rest;
    if |t| == 0 {
      assert s[1..] == rest;
    } else {
      assert s[1..] == t[1..] + "\"" + rest;
      QuotedPart(t[1..], rest);
      assert t == [t[0]] + t[1..];
    }
  }

  predicate Ended(rest: string) { |rest| > 0 ==> EndsValue(rest[0]) }

  lemma {:induction false} PlainPart(t: string, rest: string)
    requires (forall c :: c in t ==> !EndsValue(c)) && Ended(rest)
    ensures UntilEnd(t + rest) == Split(t, rest)
    decreases |t|
  {
    if |t| == 0 {
      assert t + rest == rest;
    } else {
      assert (t + rest)[1..] == t[1..] + rest;
      PlainPart(t[1..], rest);
      assert t == [t[0]] + t[1..];
    }
  }

  lemma LinesBlank(f: Format, indentation: int)
    requires AllBlank(f.linefeed)
    ensures AllBlank(NewLine(f, indentation))
  {
  }

  // ---- Reading back ----

  /** Every value, in every layout, whatever follows it. */
  lemma {:induction false} ValueReadBack(f: Format, v: Value, depth: nat, rest: string)
    requires AllBlank(f.linefeed) && Readable(v) && Ended(rest)
    ensures ReadValue(Rendered(f, v, depth) + rest) == Some(ValueRead(Shown(v), rest))
    decreases v
  {
    hide NewLine, Joined, SkipBlank, UntilQuote, UntilEnd, ReadNodes, ShownNodes, Steps;
    var s := Rendered(f, v, depth) + rest;
    match v
    case Simple(text) =>
      PlainPart(text, rest);
    case Text(val) =>
      var t := if val.Some? then val.value else "";
      QuotedPart(t, rest);
      assert s[1..] == t + "\"" + rest;
    case Dict(entries) =>
      var body := Joined(f, entries, true, depth + 1) + NewLine(f, Steps(f.unit, depth)) + "}" + rest;
      assert s[1..] == body;
      NodesReadBack(f, entries, true, depth, "", rest);
      assert "" + Joined(f, entries, true, depth + 1) == Joined(f, entries, true, depth + 1);
    case List(_, items) =>
      var body := " " + Joined(f, items, false, depth + 1) + NewLine(f, Steps(f.unit, depth)) + "]" + rest;
      assert s[1..] == body;
      NodesReadBack(f, items, false, depth, " ", rest);
  }

  lemma {:induction false} NodesReadBack(f: Format, nodes: seq<Node>, named: bool, depth: nat, before: string, rest: string)
    requires AllBlank(f.linefeed) && AllBlank(before) && forall i :: 0 <= i < |nodes| ==> ReadableNode(nodes[i], named)
    ensures
      var s := before + Joined(f, nodes, named, depth + 1) + NewLine(f, Steps(f.unit, depth)) + [Close(named)] + rest;
      ReadNodes(SkipBlank(s), named) == Some(NodesRead(ShownNodes(nodes, named), rest))
    decreases nodes, 1
  {
    hide NewLine, Joined, SkipBlank, ReadMore, ReadableNode, Steps;
    var line := NewLine(f, Steps(f.unit, depth));
    LinesBlank(f, Steps(f.unit, depth));
    if |nodes| == 0 {
      JoinedNone(f, named, depth + 1);
      var end := [Close(named)] + rest;
      assert before + "" + line + [Close(named)] + rest == before + line + end;
      SkipBlanks(before + line, end);
      assert end[1..] == rest;
    } else {
      MoreReadBack(f, nodes, named, depth, before, rest);
      var joined := before + Joined(f, nodes, named, depth + 1);
      assert joined + line + [Close(named)] + rest == joined + (line + [Close(named)] + rest);
    }
  }

  /** The text of a node without the line break before it. */
  function Body(f: Format, node: Node, named: bool, depth: nat): string {
    (if named then Label(node.name) else "") + Rendered(f, node.value, depth)
  }

  lemma BodyStarts(f: Format, node: Node, named: bool, depth: nat)
    requires ReadableNode(node, named)
    ensures
      var s := Body(f, node, named, depth);
      |s| > 0 && !Blank(s[0]) && s[0] != '}' && s[0] != ']'
  {
    hide NewLine, Joined, Steps;
    if !named && node.value.Simple? { assert node.value.text[0] in node.value.text; }
  }

  lemma {:induction false} NodeReadBack(f: Format, node: Node, named: bool, depth: nat, rest: string)
    requires AllBlank(f.linefeed) && ReadableNode(node, named) && Ended(rest)
    ensures ReadNode(Body(f, node, named, depth) + rest, named) == Some(NodeRead(ShownNode(node, named), rest))
    decreases node
  {
    hide Rendered, Readable, ReadValue, UntilQuote, Shown;
    ValueReadBack(f, node.value, depth, rest);
    var text := Rendered(f, node.value, depth) + rest;
    if named {
      var after := " : " + text;
      var s := Body(f, node, named, depth) + rest;
      assert s[1..] == node.name + "\"" + after;
      QuotedPart(node.name, after);
      assert after[3..] == text && " : " <= after;
    } else {
      assert Body(f, node, named, depth) + rest == text;
    }
  }

  /** What follows the first node: the comma and the others, or the end. */
  function Tail(f: Format, nodes: seq<Node>, named: bool, depth: nat, end: string): string
    requires |nodes| > 0
  {
    if |nodes| == 1 then end else "," + Joined(f, nodes[1..], named, depth) + end
  }

  lemma FirstBody(f: Format, nodes: seq<Node>, named: bool, depth: nat, before: string, end: string)
    requires |nodes| > 0 && AllBlank(f.linefeed) && AllBlank(before) && ReadableNode(nodes[0], named)
    ensures SkipBlank(before + Joined(f, nodes, named, depth) + end)
            == Body(f, nodes[0], named, depth) + Tail(f, nodes, named, depth, end)
  {
    hide NewLine, Rendered, Steps, SkipBlank, ReadableNode;
    var line, body := NewLine(f, Steps(f.unit, depth)), Body(f, nodes[0], named, depth);
    var tail := Tail(f, nodes, named, depth, end);
    LinesBlank(f, Steps(f.unit, depth));
    BodyStarts(f, nodes[0], named, depth);
    assert Line(f, nodes[0], named, depth) == line + body;
    assert before + Joined(f, nodes, named, depth) + end == (before + line) + (body + tail);
    SkipBlanks(before + line, body + tail);
  }

  lemma {:induction false} MoreReadBack(f: Format, nodes: seq<Node>, named: bool, depth: nat, before: string, rest: string)
    requires |nodes| > 0 && AllBlank(f.linefeed) && AllBlank(before)
    requires forall i :: 0 <= i < |nodes| ==> ReadableNode(nodes[i], named)
    ensures
      var end := NewLine(f, Steps(f.unit, depth)) + [Close(named)] + rest;
      var s := SkipBlank(before + Joined(f, nodes, named, depth + 1) + end);
      && |s| > 0 && s[0] != Close(named)
      && ReadMore(s, named) == Some(NodesRead(ShownNodes(nodes, named), rest))
    decreases nodes, 0
  {
    hide NewLine, Joined, SkipBlank, ReadNode, Body, ShownNode, ReadableNode, Steps;
    var line := NewLine(f, Steps(f.unit, depth));
    var end := line + [Close(named)] + rest;
    var tail := Tail(f, nodes, named, depth + 1, end);
    LinesBlank(f, Steps(f.unit, depth));
    FirstBody(f, nodes, named, depth + 1, before, end);
    BodyStarts(f, nodes[0], named, depth + 1);
    EndStarts(line, named, rest);
    NodeReadBack(f, nodes[0], named, depth + 1, tail);
    if |nodes| == 1 {
      var close := [Close(named)] + rest;
      assert end == line + close && close[1..] == rest;
      SkipBlanks(line, close);
      OneShown(nodes, named);
    } else {
      assert tail[1..] == "" + Joined(f, nodes[1..], named, depth + 1) + end;
      MoreReadBack(f, nodes[1..], named, depth, "", rest);
    }
  }

  lemma OneShown(nodes: seq<Node>, named: bool)
    requires |nodes| == 1
    ensures ShownNodes(nodes, named) == [ShownNode(nodes[0], named)]
  {
    hide ShownNode;
    assert nodes[1..] == [];
  }

  lemma EndStarts(line: string, named: bool, rest: string)
    requires AllBlank(line)
    ensures
      var end := line + [Close(named)] + rest;
      Ended(end) && end[0] != ','
  {
    if |line| > 0 { assert line[0] in line; }
  }

  // ---- Documents ----

  /** The document of an element reads as a dictionary with that element as its only entry. */
  lemma DocumentReadBack(f: Format, node: Node)
    requires AllBlank(f.linefeed) && ReadableNode(node, true) && (node.value.Dict? || node.value.List?)
    ensures ReadValue(Document(f, node)) == Some(ValueRead(Dict([ShownNode(node, true)]), ""))
  {
    hide NewLine, Rendered, Joined, SkipBlank, ReadNodes, ReadableNode, ShownNode, ShownNodes, Steps, Line;
    var doc := Document(f, node);
    var nodes := [node];
    StepsNone(f.unit);
    NodesReadBack(f, nodes, true, 0, "", "");
    JoinedOne(f, node, true, 1);
    assert doc[1..] == "" + Joined(f, nodes, true, 1) + NewLine(f, Steps(f.unit, 0)) + [Close(true)] + "";
    OneShown(nodes, true);
    assert doc[0] == '{';
  }

  lemma JoinedOne(f: Format, node: Node, named: bool, depth: nat)
    ensures Joined(f, [node], named, depth) == Line(f, node, named, depth)
  {
  }

  /** A scalar on its own reads as an entry. */
  lemma ScalarReadBack(f: Format, node: Node)
    requires AllBlank(f.linefeed) && ReadableNode(node, true) && (node.value.Simple? || node.value.Text?)
    ensures ReadNode(SkipBlank(Document(f, node)), true) == Some(NodeRead(ShownNode(node, true), ""))
  {
    hide NewLine, Rendered, SkipBlank, ReadNode, ReadableNode, ShownNode, Steps;
    var line, body := NewLine(f, Steps(f.unit, 0)), Body(f, node, true, 0);
    LinesBlank(f, Steps(f.unit, 0));
    BodyStarts(f, node, true, 0);
    assert Document(f, node) == line + body;
    SkipBlanks(line, body);
    NodeReadBack(f, node, true, 0, "");
    assert body + "" == body;
  }

  // ---- The exact text of some documents ----

  lemma LineText(f: Format, node: Node, named: bool, depth: nat, indent: string, value: string)
    requires NewLine(f, Steps(f.unit, depth)) == indent && Rendered(f, node.value, depth) == value
    ensures Line(f, node, named, depth) == indent + (if named then "\"" + node.name + "\" : " else "") + value
  {
    hide NewLine, Steps, Rendered;
  }

  lemma PairText(f: Format, nodes: seq<Node>, named: bool, depth: nat, first: string, second: string)
    requires |nodes| == 2
    requires Line(f, nodes[0], named, depth) == first && Line(f, nodes[1], named, depth) == second
    ensures Joined(f, nodes, named, depth) == first + "," + second
  {
    hide Line;
    assert nodes[1..] == [nodes[1]];
  }

  /** A named value and a named string. */
  lemma ScalarText(f: Format, name: string, x: string)
    ensures Document(f, Node(name, Simple(x))) == NewLine(f, 0) + ("\"" + name + "\" : ") + x
    ensures Document(f, Node(name, Text(Some(x)))) == NewLine(f, 0) + ("\"" + name + "\" : ") + ("\"" + x + "\"")
    ensures Document(f, Node(name, Text(None))) == NewLine(f, 0) + ("\"" + name + "\" : ") + "\"\""
  {
    hide NewLine, Line, Steps;
    StepsNone(f.unit);
    assert "\"" + "" + "\"" == "\"\"";
    LineText(f, Node(name, Simple(x)), true, 0, NewLine(f, 0), x);
    LineText(f, Node(name, Text(Some(x))), true, 0, NewLine(f, 0), "\"" + x + "\"");
    LineText(f, Node(name, Text(None)), true, 0, NewLine(f, 0), "\"\"");
  }

  /** A dictionary of two and a list of two, without line breaks. */
  lemma CompressedText(name: string, a: string, b: string, x: string, y: string)
    ensures
      var f := Format(true, "\n", 2);
      && Document(f, Node(name, Dict([Node(a, Simple(x)), Node(b, Simple(y))])))
         == "{" + ("\"" + name + "\" : " + ("{" + ("\"" + a + "\" : " + x + "," + ("\"" + b + "\" : " + y)) + "}")) + "}"
      && Document(f, Node(name, List(2, [Node(a, Simple(x)), Node(b, Simple(y))])))
         == "{" + ("\"" + name + "\" : " + ("[ " + (x + "," + y) + "]")) + "}"
  {
    var f := Format(true, "\n", 2);
    hide Joined, Line, Steps;
    var nodes := [Node(a, Simple(x)), Node(b, Simple(y))];
    var first, second := "\"" + a + "\" : " + x, "\"" + b + "\" : " + y;
    LineText(f, nodes[0], true, 2, "", x);
    LineText(f, nodes[1], true, 2, "", y);
    LineText(f, nodes[0], false, 2, "", x);
    LineText(f, nodes[1], false, 2, "", y);
    assert "" + ("\"" + a + "\" : ") + x == first && "" + ("\"" + b + "\" : ") + y == second;
    assert "" + "" + x == x && "" + "" + y == y;
    PairText(f, nodes, true, 2, first, second);
    PairText(f, nodes, false, 2, x, y);
    var dict, list := "{" + (first + "," + second) + "}", "[ " + (x + "," + y) + "]";
    assert "{" + (first + "," + second) + "" + "}" == dict && "[ " + (x + "," + y) + "" + "]" == list;
    LineText(f, Node(name, Dict(nodes)), true, 1, "", dict);
    LineText(f, Node(name, List(2, nodes)), true, 1, "", list);
    assert forall s: string :: "{" + ("" + ("\"" + name + "\" : ") + s) + ("" + "}") == "{" + ("\"" + name + "\" : " + s) + "}";
  }

  /** The same with line breaks and two spaces for each level. */
  lemma IndentedText(name: string, a: string, b: string, x: string, y: string)
    ensures
      var f := Format(false, "\n", 2);
      && Document(f, Node(name, Dict([Node(a, Simple(x)), Node(b, Simple(y))])))
         == "{" + ("\n  " + ("\"" + name + "\" : ")
                   + ("{" + ("\n    " + ("\"" + a + "\" : ") + x + "," + ("\n    " + ("\"" + b + "\" : ") + y)) + "\n  " + "}"))
            + ("\n" + "}")
      && Document(f, Node(name, List(2, [Node(a, Simple(x)), Node(b, Simple(y))])))
         == "{" + ("\n  " + ("\"" + name + "\" : ")
                   + ("[ " + ("\n    " + "" + x + "," + ("\n    " + "" + y)) + "\n  " + "]")) + ("\n" + "}")
  {
    var f := Format(false, "\n", 2);
    TwoSpaces();
    hide Joined, Line, Steps, NewLine;
    var nodes := [Node(a, Simple(x)), Node(b, Simple(y))];
    var first, second := "\n    " + ("\"" + a + "\" : ") + x, "\n    " + ("\"" + b + "\" : ") + y;
    var one, two := "\n    " + "" + x, "\n    " + "" + y;
    LineText(f, nodes[0], true, 2, "\n    ", x);
    LineText(f, nodes[1], true, 2, "\n    ", y);
    LineText(f, nodes[0], false, 2, "\n    ", x);
    LineText(f, nodes[1], false, 2, "\n    ", y);
    PairText(f, nodes, true, 2, first, second);
    PairText(f, nodes, false, 2, one, two);
    LineText(f, Node(name, Dict(nodes)), true, 1, "\n  ", "{" + (first + "," + second) + "\n  " + "}");
    LineText(f, Node(name, List(2, nodes)), true, 1, "\n  ", "[ " + (one + "," + two) + "\n  " + "]");
  }

  lemma TwoSpaces()
    ensures
      var f := Format(false, "\n", 2);
      NewLine(f, 0) == "\n" && NewLine(f, Steps(2, 1)) == "\n  " && NewLine(f, Steps(2, 2)) == "\n    "
  {
    StepsSmall(2);
    assert Spaces(0) == "" && Spaces(2) == "  " && Spaces(4) == "    ";
  }
}
