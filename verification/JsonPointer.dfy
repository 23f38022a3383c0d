/** JSON pointers into a schema (`json_pointer` in lib_part_03.rs, RFC 6901). */
module JsonPointer {
  import opened Prelude
  import opened Strings
  import opened JsonValues

  const TARGET := "JSON pointer target"

  function AsObject(v: JsonValue, description: string): Result<map<string, JsonValue>, string> {
    if v.Object? then Ok(v.members) else Err(description + " must be an object")
  }

  function AsArray(v: JsonValue, description: string): Result<seq<JsonValue>, string> {
    if v.Array? then Ok(v.items) else Err(description + " must be an array")
  }

  function AsString(v: JsonValue, description: string): Result<string, string> {
    if v.String? then Ok(v.chars) else Err(description + " must be a string")
  }

  function Required(members: map<string, JsonValue>, key: string, description: string): Result<JsonValue, string> {
    if key in members then Ok(members[key]) else Err(description + "." + key + " is required")
  }

  /** The value at the end of a path of keys, through objects only. */
  function Walk(v: JsonValue, keys: seq<string>): Result<JsonValue, string> {
    if keys == [] then Ok(v)
    else if !v.Object? then Err(TARGET + " must be an object")
    else if keys[0] !in v.members then Err(TARGET + "." + keys[0] + " is required")
    else Walk(v.members[keys[0]], keys[1..])
  }

  /** The two replacements of section 4 of RFC 6901, in their order. */
  function Unescape(part: string): string {
    Replace(Replace(part, "~1", "/"), "~0", "~")
  }

  function UnescapeAll(parts: seq<string>): (keys: seq<string>)
    ensures |keys| == |parts|
  {
    if parts == [] then [] else [Unescape(parts[0])] + UnescapeAll(parts[1..])
  }

  function Resolve(root: JsonValue, reference: string): Result<JsonValue, string> {
    if "#/" <= reference then Walk(root, UnescapeAll(Split(reference[2..], '/')))
    else Err("external JSON Schema reference is forbidden: " + reference)
  }

  method FollowPointer(root: JsonValue, reference: string) returns (r: Result<JsonValue, string>)
    ensures r == Resolve(root, reference)
  {
    if !("#/" <= reference) {
      return Err("external JSON Schema reference is forbidden: " + reference);
    }
    var current := root;
    var parts := Split(reference[2..], '/');
    for index := 0 to |parts|
      invariant Walk(current, UnescapeAll(parts[index..])) == Walk(root, UnescapeAll(parts))
    {
      assert parts[index..][1..] == parts[index + 1..];
      var part := Replace(Replace(parts[index], "~1", "/"), "~0", "~");
      assert UnescapeAll(parts[index..]) == [part] + UnescapeAll(parts[index + 1..]);
      var members := AsObject(current, TARGET);
      if members.Err? {
        return Err(members.error);
      }
      var next := Required(members.value, part, TARGET);
      if next.Err? {
        return Err(next.error);
      }
      current := next.value;
    }
    r := Ok(current);
  }

  // Escaping (section 3 of RFC 6901)

  function EscapeKeyChar(c: char): string {
    if c == '~' then "~0" else if c == '/' then "~1" else [c]
  }

  function EscapeKey(key: string): string {
    if key == "" then "" else EscapeKeyChar(key[0]) + EscapeKey(key[1..])
  }

  /** A key of which only the tildes are escaped. */
  function EscapeTildes(key: string): string {
    if key == "" then "" else (if key[0] == '~' then "~0" else [key[0]]) + EscapeTildes(key[1..])
  }

  /** What replacing does to the first character, or to the first match. */
  lemma ReplaceStep(c: char, tail: string, from: string, onto: string)
    requires |from| == 2 && |onto| == 1
    ensures c != from[0] ==> Replace([c] + tail, from, onto) == [c] + Replace(tail, from, onto)
    ensures Replace(from + tail, from, onto) == onto + Replace(tail, from, onto)
    ensures tail != "" && tail[0] != from[1] ==> Replace([c] + tail, from, onto) == [c] + Replace(tail, from, onto)
  {
    assert ([c] + tail)[1..] == tail && (from + tail)[2..] == tail;
    assert from <= [c] + tail ==> from[0] == c && tail != "" && tail[0] == from[1];
  }

  lemma NothingReplaced(from: string, onto: string)
    requires from != ""
    ensures Replace("", from, onto) == ""
  {
  }

  lemma SlashRestored(c: char, tail: string)
    ensures Replace(EscapeKeyChar(c) + tail, "~1", "/")
            == (if c == '~' then "~0" else [c]) + Replace(tail, "~1", "/")
  {
    hide Replace;
    if c == '~' {
      assert "~0" + tail == ['~'] + (['0'] + tail);
      ReplaceStep('~', ['0'] + tail, "~1", "/");
      ReplaceStep('0', tail, "~1", "/");
      assert ['~'] + (['0'] + Replace(tail, "~1", "/")) == "~0" + Replace(tail, "~1", "/");
    } else {
      ReplaceStep(c, tail, "~1", "/");
    }
  }

  lemma {:induction false} SlashesRestored(key: string)
    ensures Replace(EscapeKey(key), "~1", "/") == EscapeTildes(key)
  {
    hide Replace, EscapeKeyChar;
    if key == "" {
      NothingReplaced("~1", "/");
    } else {
      SlashesRestored(key[1..]);
      SlashRestored(key[0], EscapeKey(key[1..]));
    }
  }

  lemma {:induction false} TildesRestored(key: string)
    ensures Replace(EscapeTildes(key), "~0", "~") == key
  {
    hide Replace;
    if key == "" {
      NothingReplaced("~0", "~");
    } else {
      TildesRestored(key[1..]);
      ReplaceStep(key[0], EscapeTildes(key[1..]), "~0", "~");
      assert key == [key[0]] + key[1..];
    }
  }

  /** In this order the two replacements invert escaping on every key. */
  lemma UnescapeInvertsEscape(key: string)
    ensures Unescape(EscapeKey(key)) == key
  {
    SlashesRestored(key);
    TildesRestored(key);
  }

  /** In the other order they do not: the key `~1` would come back as a slash. */
  lemma OrderOfReplacementsMatters()
    ensures EscapeKey("~1") == "~01"
    ensures Replace(Replace("~01", "~0", "~"), "~1", "/") == "/"
  {
    assert "~1"[1..] == "1" && "1"[1..] == "";
    assert "~01"[2..] == "1" && "~1"[2..] == "";
    assert Replace("1", "~0", "~") == "1";
    assert Replace("~01", "~0", "~") == "~1";
    assert Replace("", "~1", "/") == "";
  }

  lemma {:induction false} EscapedHasNoSlash(key: string)
    ensures '/' !in EscapeKey(key)
  {
    if key != "" {
      EscapedHasNoSlash(key[1..]);
    }
  }

  function EscapeAll(keys: seq<string>): (parts: seq<string>)
    ensures |parts| == |keys| && forall i | 0 <= i < |keys| :: parts[i] == EscapeKey(keys[i])
  {
    seq(|keys|, i requires 0 <= i < |keys| => EscapeKey(keys[i]))
  }

  lemma {:induction false} UnescapeAllInverts(keys: seq<string>)
    ensures UnescapeAll(EscapeAll(keys)) == keys
  {
    if keys != [] {
      UnescapeInvertsEscape(keys[0]);
      UnescapeAllInverts(keys[1..]);
      assert EscapeAll(keys)[1..] == EscapeAll(keys[1..]);
      assert [keys[0]] + keys[1..] == keys;
    }
  }

  /** The pointer of any path of keys leads where walking the keys leads. */
  lemma PointerWalksPath(root: JsonValue, keys: seq<string>)
    requires keys != []
    ensures Resolve(root, "#/" + Join(EscapeAll(keys), '/')) == Walk(root, keys)
  {
    var parts := EscapeAll(keys);
    forall i | 0 <= i < |parts|
      ensures '/' !in parts[i]
    {
      EscapedHasNoSlash(keys[i]);
    }
    SplitJoined(parts, '/');
    UnescapeAllInverts(keys);
    assert ("#/" + Join(parts, '/'))[2..] == Join(parts, '/');
  }
}
