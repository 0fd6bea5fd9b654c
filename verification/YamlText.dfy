/** src/Lib/MyYAML/MyYAML.cpp, the helpers that read one line. */
module YamlText {
  import opened StringOps

  datatype Kind = Seq | Map

  /** What a line says; Broken when a helper throws. */
  datatype Reading = Broken | Entry(kind: Kind, key: string, value: string, opens: bool)

  function Indent(line: string): nat {
    if line != "" && line[0] == ' ' then 1 + Indent(line[1..]) else 0
  }

  /** StringOps::startCharCount for a space. */
  method StartCharCount(line: string) returns (result: nat)
    ensures result == Indent(line)
    ensures result <= |line| && (forall i | 0 <= i < result :: line[i] == ' ') && (result < |line| ==> line[result] != ' ')
  {
    result := 0;
    assert line[0..] == line;
    while result < |line| && line[result] == ' '
      invariant result <= |line| && result + Indent(line[result..]) == Indent(line)
      invariant forall i | 0 <= i < result :: line[i] == ' '
    {
      assert line[result..][1..] == line[result + 1..];
      result := result + 1;
    }
  }

  /** StringOps::isOnlyCharLine: the first character that is not a space. */
  predicate StartsWith(line: string, c: char) {
    Indent(line) < |line| && line[Indent(line)] == c
  }

  /** Empty and comment lines are skipped; a line of spaces is not. */
  predicate Skipped(line: string) {
    line == "" || StartsWith(line, '#')
  }

  function ExtractKey(line: string): Option<string> {
    var t := Trim(line, " ");
    if t == "" then Some("")
    else if t[0] == ':' then None
    else
      var pos := FindChar(t, ':', 0);
      if pos.None? then Some("") else Some(Trim(t[..pos.value], " "))
  }

  function ExtractValue(line: string): string {
    var t := Trim(line, " ");
    if t == "" then ""
    else
      var pos := FindChar(t, ':', 0);
      if pos.None? then t else Trim(t[pos.value + 1..], " ")
  }

  predicate EndsWithSeparator(line: string) {
    var t := Trim(line, " ");
    t != "" && FindChar(t, ':', 0).Some? && FindChar(t, ':', 0).value == |t| - 1
  }

  function ExtractListValue(line: string): Option<string> {
    var t := Trim(line, " ");
    if |t| >= 2 && t[0] == '-' && t[1] == ' ' then Some(t[2..]) else None
  }

  function ReadBody(kind: Kind, body: string): Reading {
    var key := ExtractKey(body);
    if key.None? then Broken else Entry(kind, key.value, ExtractValue(body), EndsWithSeparator(body))
  }

  function Read(line: string): Reading {
    if StartsWith(line, '-') then
      var body := ExtractListValue(line);
      if body.None? then Broken else ReadBody(Seq, body.value)
    else ReadBody(Map, line)
  }

  function Spaces(n: nat): (s: string)
    ensures |s| == n && forall i | 0 <= i < n :: s[i] == ' '
  {
    if n == 0 then "" else " " + Spaces(n - 1)
  }

  lemma {:induction false} IndentOfPadded(n: nat, body: string)
    requires body == "" || body[0] != ' '
    ensures Indent(Spaces(n) + body) == n
  {
    var line := Spaces(n) + body;
    if n == 0 {
      assert line == body;
    } else {
      assert line[1..] == Spaces(n - 1) + body;
      IndentOfPadded(n - 1, body);
    }
  }

  lemma {:induction false} NoSeparatorBefore(key: string, rest: string)
    requires ':' !in key
    ensures FindChar(key + ":" + rest, ':', 0) == Some(|key|)
  {
    NoSeparatorFrom(key, rest, 0);
  }

  lemma {:induction false} NoSeparatorFrom(key: string, rest: string, from: nat)
    requires ':' !in key && from <= |key|
    ensures FindChar(key + ":" + rest, ':', from) == Some(|key|)
    decreases |key| - from
  {
    var t := key + ":" + rest;
    if from < |key| {
      assert t[from] == key[from];
      NoSeparatorFrom(key, rest, from + 1);
    } else {
      assert t[from] == ':';
    }
  }

  /** A plain scalar: not empty and without spaces at its ends. */
  predicate Plain(s: string) {
    s != "" && s[0] != ' ' && s[|s| - 1] != ' '
  }

  /** How an entry is printed on a line; without a key it is a bare value. */
  function PrintEntry(indent: nat, kind: Kind, key: string, value: string): string {
    Spaces(indent) + (if kind == Seq then "- " else "") + Body(key, value)
  }

  function Body(key: string, value: string): string {
    if key == "" then value else key + ":" + (if value == "" then "" else " " + value)
  }

  /** A key, which ends at the first colon, with or without a value, or a value alone. */
  predicate Printable(kind: Kind, key: string, value: string) {
    && (key == "" || (Plain(key) && ':' !in key))
    && (value == "" || Plain(value))
    && (key == "" ==> value != "" && ':' !in value)
    && (kind == Map ==> Body(key, value)[0] != '#' && Body(key, value)[0] != '-')
  }

  lemma {:induction false} TrimPlain(pre: string, s: string)
    requires (forall c | c in pre :: c == ' ') && Plain(s)
    ensures Trim(pre + s, " ") == s
  {
    TrimPadded(pre, s, "", " ");
    assert pre + s + "" == pre + s;
  }

  lemma {:induction false} BodyIsPlain(key: string, value: string)
    requires (key == "" || Plain(key)) && (value == "" || Plain(value)) && (key == "" ==> value != "")
    ensures Plain(Body(key, value))
  {
    var b := Body(key, value);
    assert key != "" ==> b[0] == key[0];
    assert value != "" ==> b[|b| - 1] == value[|value| - 1];
  }

  lemma {:induction false} NoSeparator(s: string, c: char, from: nat)
    requires c !in s && from <= |s|
    ensures FindChar(s, c, from).None?
    decreases |s| - from
  {
    if from < |s| { NoSeparator(s, c, from + 1); }
  }

  lemma {:induction false} ValueReads(kind: Kind, text: string, value: string)
    requires Plain(value) && ':' !in value && Trim(text, " ") == value
    ensures ReadBody(kind, text) == Entry(kind, "", value, false)
  {
    hide Trim, FindChar;
    NoSeparator(value, ':', 0);
    assert value[0] in value;
  }

  lemma {:induction false} TrimEmpty()
    ensures Trim("", " ") == ""
  {
  }

  lemma {:induction false} BodySplits(key: string, value: string)
    requires Plain(key) && ':' !in key
    ensures var t, tail := Body(key, value), if value == "" then "" else " " + value;
            FindChar(t, ':', 0) == Some(|key|) && t[..|key|] == key && t[|key| + 1..] == tail
            && t != "" && t[0] != ':' && |t| == |key| + 1 + |tail|
  {
    var tail := if value == "" then "" else " " + value;
    var t := Body(key, value);
    assert t == key + ":" + tail;
    NoSeparatorBefore(key, tail);
    assert t[0] == key[0] && key[0] in key;
  }

  lemma {:induction false} BodyReads(kind: Kind, text: string, key: string, value: string)
    requires key != "" && Printable(kind, key, value) && Trim(text, " ") == Body(key, value)
    ensures ReadBody(kind, text) == Entry(kind, key, value, value == "")
  {
    hide Trim, FindChar, Body;
    BodySplits(key, value);
    TrimPlain("", key);
    assert "" + key == key;
    if value == "" {
      TrimEmpty();
    } else {
      TrimPlain(" ", value);
    }
  }

  lemma {:induction false} EntryReads(kind: Kind, text: string, key: string, value: string)
    requires Printable(kind, key, value) && Trim(text, " ") == Body(key, value)
    ensures ReadBody(kind, text) == Entry(kind, key, value, value == "")
  {
    hide Trim, ReadBody;
    if key == "" {
      ValueReads(kind, text, value);
    } else {
      BodyReads(kind, text, key, value);
    }
  }

  /** A list line: the dash, then the body. */
  lemma {:induction false} ListLineReads(indent: nat, body: string)
    requires Plain(body)
    ensures var line := Spaces(indent) + ("- " + body);
            !Skipped(line) && Indent(line) == indent && Read(line) == ReadBody(Seq, body) && Trim(body, " ") == body
  {
    hide Trim, Indent, ReadBody;
    var rest := "- " + body;
    var line := Spaces(indent) + rest;
    IndentOfPadded(indent, rest);
    assert line[indent] == rest[0] && rest[|rest| - 1] == body[|body| - 1] && rest[2..] == body;
    TrimPlain(Spaces(indent), rest);
    TrimPlain("", body);
    assert "" + body == body;
  }

  lemma {:induction false} MapLineReads(indent: nat, body: string)
    requires Plain(body) && body[0] != '#' && body[0] != '-'
    ensures var line := Spaces(indent) + body;
            !Skipped(line) && Indent(line) == indent && Read(line) == ReadBody(Map, line) && Trim(line, " ") == body
  {
    hide Trim, Indent, ReadBody;
    var line := Spaces(indent) + body;
    IndentOfPadded(indent, body);
    assert line[indent] == body[0];
    TrimPlain(Spaces(indent), body);
  }

  /** Reading a printed entry gives the entry back, at the indentation it was printed with. */
  lemma {:induction false} PrintedEntryReads(indent: nat, kind: Kind, key: string, value: string)
    requires Printable(kind, key, value)
    ensures var line := PrintEntry(indent, kind, key, value);
            !Skipped(line) && Indent(line) == indent && Read(line) == Entry(kind, key, value, value == "")
  {
    hide Trim, FindChar, Indent, Read, ReadBody, Skipped, Body;
    var line, b := PrintEntry(indent, kind, key, value), Body(key, value);
    BodyIsPlain(key, value);
    if kind == Seq {
      ListLineReads(indent, b);
      assert line == Spaces(indent) + ("- " + b);
      EntryReads(Seq, b, key, value);
    } else {
      MapLineReads(indent, b);
      assert line == Spaces(indent) + b;
      EntryReads(Map, line, key, value);
    }
  }

  // ---------- lines with blanks in other places ----------

  predicate Blanks(s: string) {
    forall c | c in s :: c == ' '
  }

  lemma {:induction false} TrimAround(pre: string, core: string, post: string)
    requires Blanks(pre) && Blanks(post) && (core == "" || Plain(core))
    ensures Trim(pre + core + post, " ") == core
  {
    TrimPadded(pre, core, post, " ");
  }

  /** The two sides of the first colon. */
  lemma {:induction false} SidesRead(kind: Kind, text: string, front: string, tail: string)
    requires Trim(text, " ") == front + ":" + tail && ':' !in front && front != ""
    ensures ReadBody(kind, text) == Entry(kind, Trim(front, " "), Trim(tail, " "), tail == "")
  {
    hide Trim, FindChar;
    var t := front + ":" + tail;
    NoSeparatorBefore(front, tail);
    assert t[0] == front[0] && front[0] in front;
    assert t[..|front|] == front && t[|front| + 1..] == tail;
  }

  lemma {:induction false} KeyTrims(key: string, g: string)
    requires Plain(key) && ':' !in key && Blanks(g)
    ensures Trim(key + g, " ") == key && ':' !in key + g && key + g != ""
  {
    hide Trim;
    assert "" + key + g == key + g;
    TrimAround("", key, g);
  }

  lemma {:induction false} ValueTrims(h: string, value: string)
    requires Plain(value) && Blanks(h)
    ensures Trim(h + value, " ") == value
  {
    hide Trim;
    assert h + value + "" == h + value;
    TrimAround(h, value, "");
  }

  /** A body with any blanks around key and value, the colon included. */
  lemma {:induction false} BodyWithBlanks(kind: Kind, pre: string, key: string, g: string, h: string, value: string, post: string)
    requires Blanks(pre) && Blanks(g) && Blanks(h) && Blanks(post)
    requires Plain(key) && ':' !in key && (value == "" || Plain(value))
    ensures ReadBody(kind, pre + (key + g + ":" + (h + value)) + post) == Entry(kind, key, value, value == "")
  {
    hide Trim, ReadBody, Plain, Blanks;
    var text := pre + (key + g + ":" + (h + value)) + post;
    KeyTrims(key, g);
    if value == "" {
      var t := key + g + ":";
      CutIsPlain(key, g, "", "");
      assert t + ("" + "") == t && t + "" == t;
      BlanksJoin(h, post);
      assert text == pre + t + (h + post);
      TrimAround(pre, t, h + post);
      TrimEmpty();
      SidesRead(kind, text, key + g, "");
    } else {
      CutIsPlain(key, g, h, value);
      TrimAround(pre, key + g + ":" + (h + value), post);
      ValueTrims(h, value);
      SidesRead(kind, text, key + g, h + value);
      ValueNotEmpty(h, value);
    }
  }

  lemma {:induction false} ValueNotEmpty(h: string, value: string)
    requires value != ""
    ensures h + value != ""
  {
  }

  lemma {:induction false} StartsAtIndent(indent: nat, rest: string, c: char)
    requires rest != "" && rest[0] != ' '
    ensures Indent(Spaces(indent) + rest) == indent
    ensures StartsWith(Spaces(indent) + rest, c) <==> rest[0] == c
  {
    IndentOfPadded(indent, rest);
    assert (Spaces(indent) + rest)[indent] == rest[0];
  }

  /** A map line, however its blanks are placed. */
  lemma {:induction false} MapLineWithBlanks(indent: nat, key: string, g: string, h: string, value: string, post: string)
    requires Blanks(g) && Blanks(h) && Blanks(post)
    requires Plain(key) && ':' !in key && (value == "" || Plain(value)) && key[0] != '#' && key[0] != '-'
    ensures var line := Spaces(indent) + (key + g + ":" + (h + value)) + post;
            !Skipped(line) && Indent(line) == indent && Read(line) == Entry(Map, key, value, value == "")
  {
    hide ReadBody, Indent, StartsWith;
    var rest := key + g + ":" + (h + value) + post;
    assert Spaces(indent) + (key + g + ":" + (h + value)) + post == Spaces(indent) + rest;
    assert rest[0] == key[0];
    StartsAtIndent(indent, rest, '#');
    StartsAtIndent(indent, rest, '-');
    BodyWithBlanks(Map, Spaces(indent), key, g, h, value, post);
  }

  /** A list line: the blank behind the dash is needed, more of them do not matter. */
  lemma {:induction false} ListLineWithBlanks(
      indent: nat, pre: string, key: string, g: string, h: string, value: string, post: string)
    requires Blanks(pre) && Blanks(g) && Blanks(h) && Blanks(post)
    requires Plain(key) && ':' !in key && (value == "" || Plain(value))
    ensures var line := Spaces(indent) + ("- " + pre + (key + g + ":" + (h + value)) + post);
            !Skipped(line) && Indent(line) == indent && Read(line) == Entry(Seq, key, value, value == "")
  {
    hide Read, ReadBody, Indent, Skipped, Trim, Plain, Blanks, Spaces;
    NoBlanks();
    if value == "" {
      var cut := key + g + ":";
      BodyWithBlanks(Seq, pre, key, g, "", "", "");
      assert pre + (key + g + ":" + ("" + "")) + "" == pre + cut;
      BlanksJoin(h, post);
      CutIsPlain(key, g, "", "");
      assert cut + ("" + "") == cut;
      ListLineRead(indent, pre, cut, h + post);
      assert "- " + pre + (key + g + ":" + (h + value)) + post == "- " + pre + cut + (h + post);
    } else {
      var cut := key + g + ":" + (h + value);
      BodyWithBlanks(Seq, pre, key, g, h, value, "");
      assert pre + cut + "" == pre + cut;
      CutIsPlain(key, g, h, value);
      ListLineRead(indent, pre, cut, post);
    }
  }

  lemma {:induction false} NoBlanks()
    ensures Blanks("")
  {
  }

  lemma {:induction false} BlanksJoin(a: string, b: string)
    requires Blanks(a) && Blanks(b)
    ensures Blanks(a + b)
  {
  }

  lemma {:induction false} CutIsPlain(key: string, g: string, h: string, value: string)
    requires Plain(key) && (value == "" || Plain(value)) && (value == "" ==> h == "")
    ensures Plain(key + g + ":" + (h + value))
  {
    var t := key + g + ":" + (h + value);
    assert t[0] == key[0];
    assert value != "" ==> t[|t| - 1] == value[|value| - 1];
  }

  lemma {:induction false} ListLineRead(indent: nat, pre: string, cut: string, post: string)
    requires Plain(cut) && Blanks(post) && Blanks(pre)
    ensures var line := Spaces(indent) + ("- " + pre + cut + post);
            !Skipped(line) && Indent(line) == indent && Read(line) == ReadBody(Seq, pre + cut)
  {
    hide ReadBody, Indent, StartsWith, ExtractListValue;
    var rest := "- " + pre + cut + post;
    StartsAtIndent(indent, rest, '#');
    StartsAtIndent(indent, rest, '-');
    ListRest(indent, pre, cut, post, rest);
  }

  lemma {:induction false} ListRest(indent: nat, pre: string, cut: string, post: string, rest: string)
    requires Plain(cut) && Blanks(post) && Blanks(pre) && rest == "- " + pre + cut + post
    ensures ExtractListValue(Spaces(indent) + rest) == Some(pre + cut)
  {
    hide TrimLeft, TrimRight;
    var t := "- " + pre + cut;
    assert t[|t| - 1] == cut[|cut| - 1];
    assert Spaces(indent) + t + post == Spaces(indent) + rest;
    TrimAround(Spaces(indent), t, post);
    assert t[2..] == pre + cut;
  }

  /** Lines that are broken: a dash without a blank behind it, and a colon without a key before it. */
  lemma {:induction false} BrokenLines(indent: nat, rest: string)
    requires Plain(rest)
    ensures rest[0] == '-' && (|rest| == 1 || rest[1] != ' ') ==> Read(Spaces(indent) + rest).Broken?
    ensures rest[0] == ':' ==> Read(Spaces(indent) + rest).Broken?
  {
    hide TrimLeft, TrimRight, FindChar;
    StartsAtIndent(indent, rest, '-');
    assert Spaces(indent) + rest + "" == Spaces(indent) + rest;
    TrimAround(Spaces(indent), rest, "");
  }
}
