/** What the printer in lib_part_01.rs appends, as functions of the value and its depth. */
module JsonPrinting {
  import opened JsonValues
  import opened KeyOrder

  function HexLetter(d: nat): (c: char)
    requires d < 16
  {
    if d < 10 then (0x30 + d) as char else (0x61 + d - 10) as char
  }

  /** One character inside a string literal. */
  function EscapeChar(c: char): string {
    if c == '\"' then "\\\""
    else if c == '\\' then "\\\\"
    else if c as int == 8 then "\\b"
    else if c as int == 12 then "\\f"
    else if c == '\n' then "\\n"
    else if c == '\r' then "\\r"
    else if c == '\t' then "\\t"
    else if c as int <= 0x1F then "\\u00" + [HexLetter(c as int / 16), HexLetter(c as int % 16)]
    else [c]
  }

  function EscapeChars(s: string): string {
    if s == "" then "" else EscapeChar(s[0]) + EscapeChars(s[1..])
  }

  /** `escape_json_string` */
  function Quote(s: string): string {
    "\"" + (EscapeChars(s) + "\"")
  }

  function Indent(depth: nat): string {
    if depth == 0 then "" else "  " + Indent(depth - 1)
  }

  function Render(v: JsonValue, depth: nat): string
    decreases v, 1
  {
    match v
    case Null => "null"
    case Bool(b) => if b then "true" else "false"
    case Number(text) => text
    case String(chars) => Quote(chars)
    case Array(items) =>
      if items == [] then "[]" else "[\n" + (RenderItems(items, depth) + (Indent(depth) + "]"))
    case Object(members) =>
      if members == map[] then "{}"
      else "{\n" + (RenderMembers(v, Sorted(members.Keys), depth) + (Indent(depth) + "}"))
  }

  /** The line of a value or a member: all but the last end with a comma. */
  function Line(depth: nat, content: string, last: bool): string {
    Indent(depth + 1) + (content + (if last then "\n" else ",\n"))
  }

  function RenderItems(items: seq<JsonValue>, depth: nat): string
    decreases items, 0
  {
    if items == [] then ""
    else Line(depth, Render(items[0], depth + 1), |items| == 1) + RenderItems(items[1..], depth)
  }

  /** One line for each key, in the order given. */
  function RenderMembers(v: JsonValue, keys: seq<string>, depth: nat): string
    requires v.Object? && forall k | k in keys :: k in v.members
    decreases v, 0, |keys|
  {
    if keys == [] then ""
    else
      Line(depth, Quote(keys[0]) + (": " + Render(v.members[keys[0]], depth + 1)), |keys| == 1)
      + RenderMembers(v, keys[1..], depth)
  }

  /** `render_json_pretty` */
  function RenderPretty(v: JsonValue): string {
    Render(v, 0) + "\n"
  }

  lemma Append(a: string, b: string, c: string)
    ensures a + b + c == a + (b + c)
  {
  }
}
