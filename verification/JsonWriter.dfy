/** The JSON writer: an output, a stack of open elements and a current indentation, driven by events. */
module JsonWriting {
  import opened Wrappers
  import opened JsonText

  class JsonWriter {
    const compressed: bool
    var out: string
    var linefeed: string
    var indentationUnit: nat
    var currentIndentation: int
    var contexts: seq<Context>

    ghost function Layout(): Format
      reads this
    {
      Format(compressed, linefeed, indentationUnit)
    }

    ghost function Current(): State
      reads this
    {
      State(out, currentIndentation, contexts)
    }

    constructor (compressed: bool)
      ensures Current() == State("", 0, []) && Layout() == Format(compressed, "\n", 2)
    {
      this.compressed := compressed;
      out, linefeed, indentationUnit, currentIndentation, contexts := "", "\n", 2, 0, [];
    }

    method SetLinefeed(linefeed: string)
      modifies `linefeed
      ensures this.linefeed == linefeed
    {
      this.linefeed := linefeed;
    }

    method SetIndentation(indentation: int)
      modifies `indentationUnit
      ensures indentationUnit == if indentation < 0 then 0 else if indentation > 256 then 256 else indentation
    {
      var unit := indentation;
      if unit > 256 { unit := 256; }
      if unit < 0 { unit := 0; }
      indentationUnit := unit;
    }

    method Write(text: string)
      modifies `out
      ensures out == old(out) + text
    {
      out := out + text;
    }

    method WriteLinefeed()
      modifies `out
      ensures out == old(out) + if compressed then "" else linefeed
    {
      if compressed { return; }
      out := out + linefeed;
    }

    method WriteIndentation()
      modifies `out
      ensures out == old(out) + if compressed then "" else Spaces(currentIndentation)
    {
      if compressed { return; }
      if currentIndentation > 0 {
        Write(seq(currentIndentation, _ => ' '));
      }
    }

    method IncreaseIndentation()
      modifies `currentIndentation
      ensures currentIndentation == old(currentIndentation) + indentationUnit
    {
      currentIndentation := currentIndentation + indentationUnit;
    }

    method DecreaseIndentation()
      modifies `currentIndentation
      ensures currentIndentation == old(currentIndentation) - indentationUnit
    {
      currentIndentation := currentIndentation - indentationUnit;
    }

    method StartLine()
      modifies `out
      ensures out == old(out) + NewLine(Layout(), currentIndentation)
    {
      WriteLinefeed();
      WriteIndentation();
    }

    /** The comma before a further item of the innermost element. */
    method UseContext()
      requires |contexts| > 0
      modifies `out, `contexts
      ensures out == old(out) + Comma(old(contexts)[|old(contexts)| - 1])
      ensures contexts == Used(old(contexts))
    {
      var n := |contexts| - 1;
      if !contexts[n].isFirstItem {
        Write(",");
      }
      contexts := contexts[n := contexts[n].(isFirstItem := false)];
    }

    /** An item of an array has no name. */
    method WriteName(name: string)
      modifies `out
      ensures out == old(out) + if |contexts| == 0 then Label(name) else Tag(contexts[|contexts| - 1].elementType, name)
    {
      if |contexts| == 0 || contexts[|contexts| - 1].elementType != ArrayElement {
        Write("\"" + name + "\" : ");
      }
    }

    method StartScalar(name: string)
      modifies `out, `contexts
      ensures Current() == Apply(Layout(), old(Current()), Event.StartScalar(name))
    {
      hide NewLine, Label, Comma, Tag;
      if |contexts| > 0 {
        UseContext();
      }
      StartLine();
      WriteName(name);
      if old(|contexts|) > 0 {
        ghost var upper := old(contexts)[old(|contexts|) - 1];
        GroupedStart(old(out), Comma(upper), NewLine(Layout(), currentIndentation), Tag(upper.elementType, name));
      }
    }

    method EndScalar(name: string)
      ensures Current() == Apply(Layout(), old(Current()), Event.EndScalar(name))
    {
    }

    method WriteSimpleValue(text: string)
      modifies `out
      ensures Current() == Apply(Layout(), old(Current()), WriteSimple(text))
    {
      Write(text);
    }

    method WriteBoolValue(val: bool)
      modifies `out
      ensures Current() == Apply(Layout(), old(Current()), WriteSimple(if val then "true" else "false"))
    {
      WriteSimpleValue(if val then "true" else "false");
    }

    method WriteStringValue(val: Option<string>)
      modifies `out
      ensures Current() == Apply(Layout(), old(Current()), WriteString(val))
    {
      Write("\"");
      Write(if val.Some? then val.value else "");
      Write("\"");
    }

    method StartDict(name: string)
      modifies `out, `contexts, `currentIndentation
      ensures Current() == Apply(Layout(), old(Current()), Event.StartDict(name))
    {
      WriteElementStart(Context(name, true, -1, ObjectElement));
    }

    method StartList(name: string, count: int)
      modifies `out, `contexts, `currentIndentation
      ensures Current() == Apply(Layout(), old(Current()), Event.StartList(name, count))
    {
      WriteElementStart(Context(name, true, count, ArrayElement));
    }

    method EndDict()
      requires OnlyElements(contexts)
      modifies `out, `contexts, `currentIndentation
      ensures Current() == Apply(Layout(), old(Current()), Event.EndDict)
    {
      if |contexts| == 0 { return; }
      WriteElementEnd(contexts[|contexts| - 1].elementType);
    }

    method EndList()
      requires OnlyElements(contexts)
      modifies `out, `contexts, `currentIndentation
      ensures Current() == Apply(Layout(), old(Current()), Event.EndList)
    {
      if |contexts| == 0 { return; }
      WriteElementEnd(contexts[|contexts| - 1].elementType);
    }

    method WriteElementStart(context: Context)
      requires context.elementType != SimpleElement
      modifies `out, `contexts, `currentIndentation
      ensures Current() == StartElement(Layout(), old(Current()), context)
    {
      hide NewLine, Label, Comma, Tag;
      if |contexts| == 0 {
        Write("{");
        IncreaseIndentation();
      } else {
        UseContext();
      }
      StartLine();
      WriteName(context.name);
      if old(|contexts|) > 0 {
        ghost var upper := old(contexts)[old(|contexts|) - 1];
        GroupedStart(old(out), Comma(upper), NewLine(Layout(), currentIndentation), Tag(upper.elementType, context.name));
      }
      if context.elementType == ObjectElement {
        Write("{");
        IncreaseIndentation();
      } else if context.elementType == ArrayElement {
        Write("[ ");
        IncreaseIndentation();
      }
      contexts := contexts + [context];
    }

    method WriteElementEnd(elementType: ElementType)
      requires |contexts| > 0 && elementType == contexts[|contexts| - 1].elementType
      requires OnlyElements(contexts)
      modifies `out, `contexts, `currentIndentation
      ensures Current() == EndElement(Layout(), old(Current()))
    {
      hide OnlyElements, NewLine, EndMark;
      OnStack(contexts);
      contexts := contexts[..|contexts| - 1];
      if elementType != SimpleElement {
        DecreaseIndentation();
        StartLine();
        WriteEndMark(elementType);
        assert out == old(out) + (NewLine(Layout(), currentIndentation) + EndMark(elementType));
      }
      if |contexts| == 0 {
        DecreaseIndentation();
        WriteLinefeed();
        BareLine(Layout());
        Write("}");
      }
    }

    method WriteEndMark(elementType: ElementType)
      requires elementType != SimpleElement
      modifies `out
      ensures out == old(out) + EndMark(elementType)
    {
      if elementType == ObjectElement {
        Write("}");
      } else if elementType == ArrayElement {
        Write("]");
      }
    }

    lemma OnStack(stack: seq<Context>)
      requires OnlyElements(stack) && |stack| > 0
      ensures stack[|stack| - 1].elementType != SimpleElement
    {
    }

    lemma BareLine(f: Format)
      ensures NewLine(f, 0) == if f.compressed then "" else f.linefeed
    {
    }

    method Do(e: Event)
      requires Indented(Layout(), Current())
      modifies `out, `contexts, `currentIndentation
      ensures Current() == Apply(Layout(), old(Current()), e) && Indented(Layout(), Current())
    {
      ApplyKeepsIndented(Layout(), Current(), e);
      match e
      case StartScalar(name) => StartScalar(name);
      case EndScalar(name) => EndScalar(name);
      case WriteSimple(text) => WriteSimpleValue(text);
      case WriteString(val) => WriteStringValue(val);
      case StartDict(name) => StartDict(name);
      case EndDict => EndDict();
      case StartList(name, count) => StartList(name, count);
      case EndList => EndList();
    }
  }

  /** Writes a tree by its events: the rendering of the tree is appended, and the rest is as before. */
  method WriteTree(writer: JsonWriter, node: Node)
    requires Indented(writer.Layout(), writer.Current())
    modifies writer`out, writer`contexts, writer`currentIndentation
    ensures writer.Layout() == old(writer.Layout())
    ensures writer.out == old(writer.out + Addition(writer.Layout(), writer.Current(), node))
    ensures writer.contexts == Used(old(writer.contexts))
    ensures writer.currentIndentation == old(writer.currentIndentation)
  {
    var events := Events(node);
    ghost var f, s := writer.Layout(), writer.Current();
    for i := 0 to |events|
      invariant writer.Layout() == f && Indented(f, writer.Current())
      invariant Run(f, writer.Current(), events[i..]) == Run(f, s, events)
    {
      writer.Do(events[i]);
    }
    TreeRendered(f, s, node);
  }

  /** A whole document, from a new writer. */
  method Render(compressed: bool, unit: int, node: Node) returns (text: string)
    ensures text == Document(Format(compressed, "\n", if unit < 0 then 0 else if unit > 256 then 256 else unit), node)
  {
    var writer := new JsonWriter(compressed);
    writer.SetIndentation(unit);
    WriteTree(writer, node);
    text := writer.out;
  }
}
