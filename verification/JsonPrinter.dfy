/** The printer itself, which appends to a string that its caller owns. */
module JsonPrinter {
  import opened JsonValues
  import KeyOrder
  import Spec = JsonPrinting

  class Output {
    var text: string

    constructor ()
      ensures text == ""
    {
      text := "";
    }

    method Push(s: string)
      modifies this
      ensures text == old(text) + s
    {
      text := text + s;
    }
  }

  method EscapeJsonString(value: string, output: Output)
    modifies output
    ensures output.text == old(output.text) + Spec.Quote(value)
  {
    hide Spec.EscapeChar;
    output.Push("\"");
    ghost var start := output.text;
    for i := 0 to |value|
      invariant output.text + Spec.EscapeChars(value[i..]) == start + Spec.EscapeChars(value)
    {
      ghost var text := output.text;
      output.Push(Spec.EscapeChar(value[i]));
      assert value[i..][1..] == value[i + 1..];
      Spec.Append(text, Spec.EscapeChar(value[i]), Spec.EscapeChars(value[i + 1..]));
    }
    assert Spec.EscapeChars(value[|value|..]) == "" && output.text + "" == output.text;
    output.Push("\"");
    Spec.Append(old(output.text), "\"", Spec.EscapeChars(value));
    Spec.Append(old(output.text), "\"" + Spec.EscapeChars(value), "\"");
    Spec.Append("\"", Spec.EscapeChars(value), "\"");
  }

  method RenderJson(value: JsonValue, output: Output, depth: nat)
    modifies output
    ensures output.text == old(output.text) + Spec.Render(value, depth)
    decreases value, 2
  {
    hide Spec.RenderItems, Spec.RenderMembers, Spec.Quote, Spec.Indent;
    match value
    case Null => output.Push("null");
    case Bool(b) => output.Push(if b then "true" else "false");
    case Number(text) => output.Push(text);
    case String(chars) => EscapeJsonString(chars, output);
    case Array(items) =>
      if items == [] {
        output.Push("[]");
        return;
      }
      output.Push("[\n");
      RenderItems(items, output, depth);
      output.Push(Spec.Indent(depth));
      output.Push("]");
      AppendBlock(old(output.text), "[\n", Spec.RenderItems(items, depth), Spec.Indent(depth), "]");
    case Object(members) =>
      if members == map[] {
        output.Push("{}");
        return;
      }
      output.Push("{\n");
      RenderMembers(value, output, depth);
      output.Push(Spec.Indent(depth));
      output.Push("}");
      AppendBlock(old(output.text), "{\n", Spec.RenderMembers(value, KeyOrder.Sorted(members.Keys), depth),
          Spec.Indent(depth), "}");
  }

  lemma AppendBlock(a: string, b: string, c: string, d: string, e: string)
    ensures a + b + c + d + e == a + (b + (c + (d + e)))
  {
  }

  /** The loop of `render_json` over the values of an array. */
  method RenderItems(items: seq<JsonValue>, output: Output, depth: nat)
    modifies output
    ensures output.text == old(output.text) + Spec.RenderItems(items, depth)
    decreases items, 0
  {
    hide Spec.Render, Spec.Indent, Spec.Line;
    for index := 0 to |items|
      invariant output.text + Spec.RenderItems(items[index..], depth)
          == old(output.text) + Spec.RenderItems(items, depth)
    {
      ghost var text, rendered := output.text, Spec.Render(items[index], depth + 1);
      assert items[index..][1..] == items[index + 1..];
      output.Push(Spec.Indent(depth + 1));
      RenderJson(items[index], output, depth + 1);
      if index + 1 != |items| {
        output.Push(",");
      }
      output.Push("\n");
      LinePushed(text, depth, rendered, index + 1 == |items|);
      Spec.Append(text, Spec.Line(depth, rendered, index + 1 == |items|), Spec.RenderItems(items[index + 1..], depth));
    }
  }

  lemma LinePushed(text: string, depth: nat, content: string, last: bool)
    ensures text + Spec.Indent(depth + 1) + content + (if last then "" else ",") + "\n"
        == text + Spec.Line(depth, content, last)
    ensures text + Spec.Indent(depth + 1) + content + "\n" == text + Spec.Line(depth, content, true)
  {
    hide Spec.Indent;
    var indent := Spec.Indent(depth + 1);
    assert text + indent + content + "" == text + indent + content;
    assert text + indent + content + "\n" == text + (indent + (content + "\n"));
    assert text + indent + content + "," + "\n" == text + (indent + (content + ",\n"));
  }

  /** The line of one member: its key, its value and the comma that all but the last carry. */
  method RenderMember(value: JsonValue, key: string, last: bool, output: Output, depth: nat)
    requires value.Object? && key in value.members
    modifies output
    ensures output.text == old(output.text)
      + Spec.Line(depth, Spec.Quote(key) + (": " + Spec.Render(value.members[key], depth + 1)), last)
    decreases value, 0
  {
    hide Spec.Render, Spec.Indent, Spec.Quote, Spec.Line;
    ghost var text, rendered := output.text, Spec.Render(value.members[key], depth + 1);
    ghost var content := Spec.Quote(key) + (": " + rendered);
    output.Push(Spec.Indent(depth + 1));
    EscapeJsonString(key, output);
    output.Push(": ");
    RenderJson(value.members[key], output, depth + 1);
    ContentPushed(text + Spec.Indent(depth + 1), Spec.Quote(key), rendered);
    if !last {
      output.Push(",");
    }
    output.Push("\n");
    LinePushed(text, depth, content, last);
  }

  lemma ContentPushed(text: string, key: string, rendered: string)
    ensures text + key + ": " + rendered == text + (key + (": " + rendered))
  {
  }

  /** The loop of `render_json` over the members of an object, which visits the keys in order. */
  method RenderMembers(value: JsonValue, output: Output, depth: nat)
    requires value.Object?
    modifies output
    ensures output.text == old(output.text) + Spec.RenderMembers(value, KeyOrder.Sorted(value.members.Keys), depth)
    decreases value, 1
  {
    hide Spec.Render, Spec.Indent, Spec.Quote, Spec.Line;
    var keys := KeyOrder.Sorted(value.members.Keys);
    for index := 0 to |keys|
      invariant output.text + Spec.RenderMembers(value, keys[index..], depth)
                == old(output.text) + Spec.RenderMembers(value, keys, depth)
    {
      assert keys[index] in keys;
      var key, last := keys[index], index + 1 == |keys|;
      ghost var text := output.text;
      ghost var content := Spec.Quote(key) + (": " + Spec.Render(value.members[key], depth + 1));
      assert keys[index..][1..] == keys[index + 1..];
      RenderMember(value, key, last, output, depth);
      Spec.Append(text, Spec.Line(depth, content, last), Spec.RenderMembers(value, keys[index + 1..], depth));
    }
  }

  method RenderJsonPretty(value: JsonValue) returns (text: string)
    ensures text == Spec.RenderPretty(value)
  {
    var output := new Output();
    RenderJson(value, output, 0);
    output.Push("\n");
    text := output.text;
  }
}
