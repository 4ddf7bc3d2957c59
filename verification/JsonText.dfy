/**
 JSON text from start and end events: what each event adds, and the recursive rendering of a tree that
 a run of its events must add up to.
 */
module JsonText {
  import opened Wrappers

  datatype ElementType = SimpleElement | ObjectElement | ArrayElement

  datatype Context = Context(name: string, isFirstItem: bool, arraySize: int, elementType: ElementType)

  datatype Format = Format(compressed: bool, linefeed: string, unit: nat)

  datatype State = State(out: string, indentation: int, contexts: seq<Context>)

  datatype Event =
    | StartScalar(name: string)
    | EndScalar(name: string)
    | WriteSimple(text: string)
    | WriteString(val: Option<string>)
    | StartDict(name: string)
    | EndDict
    | StartList(name: string, count: int)
    | EndList

  function Spaces(n: int): string {
    seq(if n > 0 then n else 0, _ => ' ')
  }

  /** A new line, indented by `indentation` spaces. */
  function NewLine(f: Format, indentation: int): string {
    if f.compressed then "" else f.linefeed + Spaces(indentation)
  }

  function Label(name: string): string {
    "\"" + name + "\" : "
  }

  function Quote(text: string): string {
    "\"" + text + "\""
  }

  function StartMark(t: ElementType): string {
    if t == ObjectElement then "{" else "[ "
  }

  function EndMark(t: ElementType): string {
    if t == ObjectElement then "}" else "]"
  }

  /** The comma before an item of this element. */
  function Comma(c: Context): string {
    if c.isFirstItem then "" else ","
  }

  /** The name before an item of such an element: none in an array. */
  function Tag(t: ElementType, name: string): string {
    if t == ArrayElement then "" else Label(name)
  }

  // ---- What each event does ----

  /** An item starts: the comma, the new line and, outside arrays, the name. */
  function StartItem(f: Format, s: State, name: string): State {
    if |s.contexts| == 0 then State(s.out + NewLine(f, s.indentation) + Label(name), s.indentation, [])
    else
      var n := |s.contexts| - 1;
      var upper := s.contexts[n];
      var text := Comma(upper) + NewLine(f, s.indentation) + Tag(upper.elementType, name);
      State(s.out + text, s.indentation, s.contexts[n := upper.(isFirstItem := false)])
  }

  /** An element starts; outside any other, it is wrapped in a pair of braces of its own. */
  function StartElement(f: Format, s: State, context: Context): State {
    var outer := if |s.contexts| == 0 then State(s.out + "{", s.indentation + f.unit, []) else s;
    var item := StartItem(f, outer, context.name);
    State(item.out + StartMark(context.elementType), item.indentation + f.unit, item.contexts + [context])
  }

  /** The innermost element ends, whichever kind it is. Nothing happens where none is open. */
  function EndElement(f: Format, s: State): State {
    if |s.contexts| == 0 then s
    else
      var n := |s.contexts| - 1;
      var inner := s.indentation - f.unit;
      var text := NewLine(f, inner) + EndMark(s.contexts[n].elementType);
      if n == 0 then State(s.out + text + NewLine(f, 0) + "}", inner - f.unit, [])
      else State(s.out + text, inner, s.contexts[..n])
  }

  function Apply(f: Format, s: State, e: Event): State {
    match e
    case StartScalar(name) => StartItem(f, s, name)
    case EndScalar(_) => s
    case WriteSimple(text) => s.(out := s.out + text)
    case WriteString(val) => s.(out := s.out + Quote(if val.Some? then val.value else ""))
    case StartDict(name) => StartElement(f, s, Context(name, true, -1, ObjectElement))
    case EndDict => EndElement(f, s)
    case StartList(name, count) => StartElement(f, s, Context(name, true, count, ArrayElement))
    case EndList => EndElement(f, s)
  }

  function Run(f: Format, s: State, events: seq<Event>): State
    decreases |events|
  {
    if |events| == 0 then s else Run(f, Apply(f, s, events[0]), events[1..])
  }

  lemma {:induction false} RunAppend(f: Format, s: State, a: seq<Event>, b: seq<Event>)
    ensures Run(f, s, a + b) == Run(f, Run(f, s, a), b)
    decreases |a|
  {
    if |a| == 0 {
      assert a + b == b;
    } else {
      assert (a + b)[1..] == a[1..] + b;
      RunAppend(f, Apply(f, s, a[0]), a[1..], b);
    }
  }

  lemma RunOne(f: Format, s: State, e: Event)
    ensures Run(f, s, [e]) == Apply(f, s, e)
  {
  }

  // ---- The indentation ----

  /** Only objects and arrays are ever on the stack. */
  ghost predicate OnlyElements(contexts: seq<Context>) {
    forall c :: c in contexts ==> c.elementType != SimpleElement
  }

  /** The indentation is that of the number of elements on the stack. */
  ghost predicate Indented(f: Format, s: State) {
    && OnlyElements(s.contexts)
    && s.indentation == Depth(f, |s.contexts|)
  }

  /** Nothing outside the document; inside it, one step more than the elements that are open. */
  function Depth(f: Format, open: nat): int {
    if open == 0 then 0 else Steps(f.unit, open + 1)
  }

  function Steps(unit: nat, n: nat): nat {
    if n == 0 then 0 else Steps(unit, n - 1) + unit
  }

  lemma StepsSmall(unit: nat)
    ensures Steps(unit, 1) == unit && Steps(unit, 2) == unit + unit
  {
    assert Steps(unit, 0) == 0;
  }

  lemma ApplyKeepsIndented(f: Format, s: State, e: Event)
    requires Indented(f, s)
    ensures Indented(f, Apply(f, s, e))
  {
    StepsSmall(f.unit);
  }

  /** Whatever the events, well nested or not. */
  lemma {:induction false} IndentationFollowsDepth(f: Format, s: State, events: seq<Event>)
    requires Indented(f, s)
    ensures Indented(f, Run(f, s, events))
    decreases |events|
  {
    if |events| > 0 {
      ApplyKeepsIndented(f, s, events[0]);
      IndentationFollowsDepth(f, Apply(f, s, events[0]), events[1..]);
    }
  }

  /** A new line is the line feed and spaces, `unit` for each level, or nothing at all. */
  lemma {:induction false} LineWidth(f: Format, depth: nat)
    ensures Steps(f.unit, depth) == f.unit * depth
    ensures f.compressed ==> NewLine(f, Steps(f.unit, depth)) == ""
    ensures !f.compressed ==>
      var line := NewLine(f, Steps(f.unit, depth));
      && f.linefeed <= line && |line| == |f.linefeed| + f.unit * depth
      && forall i :: |f.linefeed| <= i < |line| ==> line[i] == ' '
  {
    if depth > 0 { LineWidth(f, depth - 1); }
  }

  /** Either end event ends the innermost element, whichever kind it is, and does nothing where none is open. */
  lemma EndsInnermost(f: Format, s: State)
    ensures Apply(f, s, EndDict) == Apply(f, s, EndList)
    ensures s.contexts == [] ==> Apply(f, s, EndDict) == s
    ensures s.contexts != [] ==>
      && Apply(f, s, EndDict).contexts == s.contexts[..|s.contexts| - 1]
      && s.out + NewLine(f, s.indentation - f.unit)
         + (if s.contexts[|s.contexts| - 1].elementType == ObjectElement then "}" else "]") <= Apply(f, s, EndDict).out
  {
    hide NewLine;
    if |s.contexts| > 0 {
      var mark := EndMark(s.contexts[|s.contexts| - 1].elementType);
      assert s.out + (NewLine(f, s.indentation - f.unit) + mark) == s.out + NewLine(f, s.indentation - f.unit) + mark;
    }
  }

  // ---- Trees ----

  datatype Node = Node(name: string, value: Value)

  datatype Value =
    | Simple(text: string)
    | Text(val: Option<string>)
    | Dict(entries: seq<Node>)
    | List(count: int, items: seq<Node>)

  /** The calls that write a tree. */
  function Events(node: Node): seq<Event>
    decreases node
  {
    match node.value
    case Simple(text) => [StartScalar(node.name), WriteSimple(text), EndScalar(node.name)]
    case Text(val) => [StartScalar(node.name), WriteString(val), EndScalar(node.name)]
    case Dict(entries) => [StartDict(node.name)] + AllEvents(entries) + [EndDict]
    case List(count, items) => [StartList(node.name, count)] + AllEvents(items) + [EndList]
  }

  function AllEvents(nodes: seq<Node>): seq<Event>
    decreases nodes
  {
    if |nodes| == 0 then [] else Events(nodes[0]) + AllEvents(nodes[1..])
  }

  /** The text of a value that stands at a depth of so many indentations. */
  function Rendered(f: Format, v: Value, depth: nat): string
    decreases v
  {
    match v
    case Simple(text) => text
    case Text(val) => Quote(if val.Some? then val.value else "")
    case Dict(entries) => "{" + Joined(f, entries, true, depth + 1) + NewLine(f, Steps(f.unit, depth)) + "}"
    case List(_, items) => "[ " + Joined(f, items, false, depth + 1) + NewLine(f, Steps(f.unit, depth)) + "]"
  }

  /** The items, each on a line of its own, with commas between them. */
  function Joined(f: Format, nodes: seq<Node>, named: bool, depth: nat): string
    decreases nodes
  {
    if |nodes| == 0 then ""
    else if |nodes| == 1 then Line(f, nodes[0], named, depth)
    else Line(f, nodes[0], named, depth) + "," + Joined(f, nodes[1..], named, depth)
  }

  function Line(f: Format, node: Node, named: bool, depth: nat): string
    decreases node
  {
    NewLine(f, Steps(f.unit, depth)) + (if named then Label(node.name) else "") + Rendered(f, node.value, depth)
  }

  /** A tree on its own: an element gets braces around it, a scalar does not. */
  function Document(f: Format, node: Node): string {
    if node.value.Dict? || node.value.List? then "{" + Line(f, node, true, 1) + (NewLine(f, 0) + "}")
    else Line(f, node, true, 0)
  }

  /** What the tree adds to the text in the current state. */
  function Addition(f: Format, s: State, node: Node): string {
    if |s.contexts| == 0 then Document(f, node)
    else
      var upper := s.contexts[|s.contexts| - 1];
      Comma(upper) + Line(f, node, upper.elementType != ArrayElement, |s.contexts| + 1)
  }

  /** The stack afterwards is as before, but that the enclosing element is no longer empty. */
  function Used(contexts: seq<Context>): seq<Context> {
    if |contexts| == 0 then []
    else contexts[|contexts| - 1 := contexts[|contexts| - 1].(isFirstItem := false)]
  }

  // ---- The events of a tree write its rendering ----

  /** The text of an element with these items, in the current state. */
  function ElementAddition(f: Format, s: State, c: Context, items: string): string {
    var body := StartMark(c.elementType) + items + NewLine(f, Steps(f.unit, |s.contexts| + 1)) + EndMark(c.elementType);
    if |s.contexts| == 0 then
      "{" + (NewLine(f, Steps(f.unit, 1)) + Label(c.name) + body) + (NewLine(f, 0) + "}")
    else
      var upper := s.contexts[|s.contexts| - 1];
      Comma(upper) + (NewLine(f, Steps(f.unit, |s.contexts| + 1)) + Tag(upper.elementType, c.name) + body)
  }

  lemma ElementAround(f: Format, s: State, c: Context, items: string, used: seq<Context>)
    requires Indented(f, s) && c.elementType != SimpleElement
    requires used == StartElement(f, s, c).contexts || used == Used(StartElement(f, s, c).contexts)
    ensures
      var inner := StartElement(f, s, c);
      EndElement(f, State(inner.out + items, inner.indentation, used))
      == State(s.out + ElementAddition(f, s, c, items), s.indentation, Used(s.contexts))
  {
    hide NewLine, Label, Steps, StartMark, EndMark, Comma, Tag;
    if |s.contexts| == 0 {
      RootAround(f, s, c, items, used);
    } else {
      StepsStep(f.unit, |s.contexts| + 1);
      var line := NewLine(f, Steps(f.unit, |s.contexts| + 1));
      var upper := s.contexts[|s.contexts| - 1];
      assert used[..|s.contexts|] == Used(s.contexts);
      Grouped(s.out, Comma(upper), line, Tag(upper.elementType, c.name), StartMark(c.elementType), items, EndMark(c.elementType));
    }
  }

  lemma RootAround(f: Format, s: State, c: Context, items: string, used: seq<Context>)
    requires Indented(f, s) && s.contexts == []
    requires |used| == 1 && used[0].elementType == c.elementType
    ensures
      var inner := StartElement(f, s, c);
      EndElement(f, State(inner.out + items, inner.indentation, used))
      == State(s.out + ElementAddition(f, s, c, items), 0, [])
  {
    hide NewLine, Label, Steps, StartMark, EndMark;
    StepsSmall(f.unit);
    GroupedRoot(s.out, "{", NewLine(f, f.unit), Label(c.name), StartMark(c.elementType), items, EndMark(c.elementType),
                NewLine(f, 0), "}");
  }

  lemma StepsStep(unit: nat, n: nat)
    ensures Steps(unit, n + 1) == Steps(unit, n) + unit
  {
  }

  lemma Grouped(out: string, first: string, line: string, tag: string, start: string, items: string, end: string)
    ensures out + (first + line + tag) + start + items + (line + end)
            == out + (first + (line + tag + (start + items + line + end)))
  {
  }

  lemma GroupedStart(out: string, first: string, line: string, tag: string)
    ensures out + first + line + tag == out + (first + line + tag)
  {
  }

  lemma GroupedRoot(out: string, first: string, line: string, tag: string, start: string, items: string, end: string,
                    last: string, close: string)
    ensures out + first + line + tag + start + items + (line + end) + last + close
            == out + (first + (line + tag + (start + items + line + end)) + (last + close))
  {
  }

  lemma GroupedItem(out: string, first: string, line: string, tag: string, text: string)
    ensures out + (first + line + tag) + text == out + (first + (line + tag + text))
    ensures out + line + tag + text == out + (line + tag + text)
  {
  }

  lemma StartedElement(f: Format, s: State, c: Context)
    requires Indented(f, s) && c.elementType != SimpleElement && c.isFirstItem
    ensures
      var inner := StartElement(f, s, c);
      && Indented(f, inner) && |inner.contexts| == |s.contexts| + 1 && inner.contexts[|s.contexts|] == c
  {
    StepsSmall(f.unit);
  }

  /** The state after some items of one element. */
  function AfterItems(f: Format, s: State, nodes: seq<Node>): State
    requires |s.contexts| > 0
  {
    if |nodes| == 0 then s
    else
      var upper := s.contexts[|s.contexts| - 1];
      State(s.out + (Comma(upper)
                     + Joined(f, nodes, upper.elementType != ArrayElement, |s.contexts| + 1)),
            s.indentation, Used(s.contexts))
  }

  lemma ElementAdditionIs(f: Format, s: State, node: Node, c: Context, nodes: seq<Node>)
    requires Indented(f, s) && c.name == node.name
    requires
      || (node.value.Dict? && c.elementType == ObjectElement && nodes == node.value.entries)
      || (node.value.List? && c.elementType == ArrayElement && nodes == node.value.items)
    ensures
      ElementAddition(f, s, c, Joined(f, nodes, c.elementType != ArrayElement, |s.contexts| + 2)) == Addition(f, s, node)
  {
    hide NewLine, Label, Steps, Comma, Joined;
    var depth := |s.contexts| + 1;
    assert Rendered(f, node.value, depth)
        == StartMark(c.elementType) + Joined(f, nodes, c.elementType != ArrayElement, depth + 1)
           + NewLine(f, Steps(f.unit, depth)) + EndMark(c.elementType);
  }

  lemma {:induction false} TreeRendered(f: Format, s: State, node: Node)
    requires Indented(f, s)
    ensures Run(f, s, Events(node)) == State(s.out + Addition(f, s, node), s.indentation, Used(s.contexts))
    decreases node
  {
    match node.value
    case Simple(text) => ScalarRendered(f, s, node, WriteSimple(text));
    case Text(val) => ScalarRendered(f, s, node, WriteString(val));
    case Dict(entries) =>
      var c := Context(node.name, true, -1, ObjectElement);
      ElementRendered(f, s, StartDict(node.name), c, entries, EndDict);
      ElementAdditionIs(f, s, node, c, entries);
    case List(count, items) =>
      var c := Context(node.name, true, count, ArrayElement);
      ElementRendered(f, s, StartList(node.name, count), c, items, EndList);
      ElementAdditionIs(f, s, node, c, items);
  }

  lemma ScalarAround(f: Format, s: State, node: Node, e: Event)
    requires Indented(f, s)
    requires node.value.Simple? || node.value.Text?
    requires e == if node.value.Simple? then WriteSimple(node.value.text) else WriteString(node.value.val)
    ensures
      Apply(f, StartItem(f, s, node.name), e) == State(s.out + Addition(f, s, node), s.indentation, Used(s.contexts))
  {
    hide NewLine, Label, Steps, Comma, Quote;
    var text := if node.value.Simple? then node.value.text
                else Quote(if node.value.val.Some? then node.value.val.value else "");
    StepsNone(f.unit);
    var depth := if |s.contexts| == 0 then 0 else |s.contexts| + 1;
    assert Rendered(f, node.value, depth) == text;
    assert Apply(f, StartItem(f, s, node.name), e).out == StartItem(f, s, node.name).out + text;
    if |s.contexts| == 0 {
      GroupedItem(s.out, "", NewLine(f, 0), Label(node.name), text);
    } else {
      var upper := s.contexts[|s.contexts| - 1];
      GroupedItem(s.out, Comma(upper), NewLine(f, s.indentation), Tag(upper.elementType, node.name), text);
    }
  }

  lemma StepsNone(unit: nat)
    ensures Steps(unit, 0) == 0
  {
  }

  lemma ScalarRendered(f: Format, s: State, node: Node, e: Event)
    requires Indented(f, s)
    requires node.value.Simple? || node.value.Text?
    requires e == if node.value.Simple? then WriteSimple(node.value.text) else WriteString(node.value.val)
    ensures Run(f, s, [StartScalar(node.name), e, EndScalar(node.name)])
            == State(s.out + Addition(f, s, node), s.indentation, Used(s.contexts))
  {
    hide StartItem, Addition;
    var events := [StartScalar(node.name), e, EndScalar(node.name)];
    assert events == [events[0]] + ([e] + [events[2]]);
    var item := StartItem(f, s, node.name);
    var done := Apply(f, item, e);
    RunAppend(f, s, [events[0]], [e] + [events[2]]);
    RunAppend(f, item, [e], [events[2]]);
    RunOne(f, s, events[0]);
    RunOne(f, item, e);
    RunOne(f, done, events[2]);
    ScalarAround(f, s, node, e);
  }

  lemma {:induction false} ElementRendered(f: Format, s: State, start: Event, c: Context, nodes: seq<Node>, end: Event)
    requires Indented(f, s) && c.elementType != SimpleElement && c.isFirstItem
    requires Apply(f, s, start) == StartElement(f, s, c) && (end.EndDict? || end.EndList?)
    ensures
      var items := Joined(f, nodes, c.elementType != ArrayElement, |s.contexts| + 2);
      Run(f, s, [start] + AllEvents(nodes) + [end])
      == State(s.out + ElementAddition(f, s, c, items), s.indentation, Used(s.contexts))
    decreases nodes, 1
  {
    hide StartElement, EndElement, ElementAddition, Joined, Indented;
    var inner := StartElement(f, s, c);
    StartedElement(f, s, c);
    var done := AfterItems(f, inner, nodes);
    var items := Joined(f, nodes, c.elementType != ArrayElement, |s.contexts| + 2);
    AllRendered(f, inner, nodes);
    RunAppend(f, s, [start] + AllEvents(nodes), [end]);
    RunAppend(f, s, [start], AllEvents(nodes));
    RunOne(f, s, start);
    RunOne(f, done, end);
    JoinedNone(f, c.elementType != ArrayElement, |s.contexts| + 2);
    assert done == State(inner.out + items, inner.indentation, done.contexts);
    ElementAround(f, s, c, items, done.contexts);
  }

  lemma JoinedNone(f: Format, named: bool, depth: nat)
    ensures Joined(f, [], named, depth) == ""
  {
  }

  lemma {:induction false} AllRendered(f: Format, s: State, nodes: seq<Node>)
    requires Indented(f, s) && |s.contexts| > 0
    ensures Run(f, s, AllEvents(nodes)) == AfterItems(f, s, nodes)
    decreases nodes, 0
  {
    if |nodes| > 0 {
      hide Run, Indented, Line, Rendered;
      var first := State(s.out + Addition(f, s, nodes[0]), s.indentation, Used(s.contexts));
      RunAppend(f, s, Events(nodes[0]), AllEvents(nodes[1..]));
      TreeRendered(f, s, nodes[0]);
      UsedIndented(f, s, s.out + Addition(f, s, nodes[0]));
      AllRendered(f, first, nodes[1..]);
      NextItems(f, s, nodes);
    }
  }

  lemma UsedIndented(f: Format, s: State, out: string)
    requires Indented(f, s)
    ensures Indented(f, State(out, s.indentation, Used(s.contexts))) && |Used(s.contexts)| == |s.contexts|
    ensures Used(Used(s.contexts)) == Used(s.contexts)
  {
  }

  /** The first item and the rest of them. */
  lemma NextItems(f: Format, s: State, nodes: seq<Node>)
    requires |s.contexts| > 0 && |nodes| > 0
    ensures
      var first := State(s.out + Addition(f, s, nodes[0]), s.indentation, Used(s.contexts));
      |first.contexts| > 0 && AfterItems(f, first, nodes[1..]) == AfterItems(f, s, nodes)
  {
    hide Line;
    var upper := s.contexts[|s.contexts| - 1];
    var named, depth := upper.elementType != ArrayElement, |s.contexts| + 1;
    var line, rest := Line(f, nodes[0], named, depth), Joined(f, nodes[1..], named, depth);
    assert s.out + (Comma(upper) + line) + ("," + rest) == s.out + (Comma(upper) + (line + "," + rest));
    assert Used(Used(s.contexts)) == Used(s.contexts);
  }

  /** A document, from the first byte to the last. */
  lemma DocumentRendered(f: Format, node: Node)
    ensures Run(f, State("", 0, []), Events(node)) == State(Document(f, node), 0, [])
  {
    TreeRendered(f, State("", 0, []), node);
  }
}
