/** The request line and the header block: src/Http/Parser/RequestLineParser.cpp and
    src/Http/Parser/RequestHeadParser.cpp, with the printers they invert. */
module RequestHead {
  import opened StringOps
  import opened Http

  const BLANKS := " \t"

  /** The parts the two parsers write, and the error code, 0 for none. */
  datatype Head = Head(name: string, path: string, version: string, headers: Headers, code: nat)

  // ---------- the request line ----------

  /** Method and version are stored before the version is judged; the path stops at '?'. */
  function ParseLine(h: Head, line: string): Head {
    match FindChar(line, ' ', 0)
    case None => h.(code := BAD_REQUEST)
    case Some(m) =>
      match FindChar(line, ' ', m + 1)
      case None => h.(code := BAD_REQUEST)
      case Some(u) =>
        var g := h.(name := line[..m], version := line[u + 1..]);
        if g.version != "HTTP/1.1" && g.version != "HTTP/1.0" then g.(code := VERSION_NOT_SUPPORTED)
        else g.(path := UpTo(line[m + 1..u], '?'))
  }

  method ParseRequestLine(request: HttpRequest, line: string) returns (errorCode: nat)
    modifies request`method_, request`path, request`version
    ensures View(request, errorCode) == ParseLine(old(View(request, 0)), line)
  {
    var methodEnd := FindChar(line, ' ', 0);
    if methodEnd.None? {
      return BAD_REQUEST;
    }
    var uriEnd := FindChar(line, ' ', methodEnd.value + 1);
    if uriEnd.None? {
      return BAD_REQUEST;
    }
    request.method_ := line[..methodEnd.value];
    request.version := line[uriEnd.value + 1..];
    if request.version != "HTTP/1.1" && request.version != "HTTP/1.0" {
      return VERSION_NOT_SUPPORTED;
    }
    request.path := UpTo(line[methodEnd.value + 1..uriEnd.value], '?');
    errorCode := 0;
  }

  function View(request: HttpRequest, code: nat): Head
    reads request
  {
    Head(request.method_, request.path, request.version, request.headers, code)
  }

  // ---------- the header block ----------

  function StripCr(line: string): string {
    if line != "" && line[|line| - 1] == '\r' then line[..|line| - 1] else line
  }

  /** One line of the block: empty lines are skipped, a repeated name is an error. */
  function AddLine(h: Head, line: string): Head {
    var name := UpTo(line, ':');
    if line == "" then h
    else if |name| == |line| || Trim(name, BLANKS) == "" then h.(code := BAD_REQUEST)
    else
      var key := ToLower(Trim(name, BLANKS));
      if key in h.headers then h.(code := BAD_REQUEST)
      else h.(headers := h.headers[key := Trim(line[|name| + 1..], BLANKS)])
  }

  /** All lines of the block, up to the first bad one. */
  function AddLines(h: Head, block: string): Head
    decreases |block|
  {
    if block == "" then h
    else
      var line := UpTo(block, '\n');
      var g := AddLine(h, StripCr(line));
      if g.code != 0 || |line| == |block| then g else AddLines(g, block[|line| + 1..])
  }

  /** RequestHeadParser::parse: line, key and value indices moving over the block. */
  method ParseHeaderBlock(request: HttpRequest, block: string) returns (errorCode: nat)
    modifies request`headers
    ensures View(request, errorCode) == AddLines(old(View(request, 0)), block)
  {
    ghost var all := AddLines(View(request, 0), block);
    var lineStart := 0;
    errorCode := 0;
    assert From(block, 0) == block;
    while lineStart < |block|
      invariant AddLines(View(request, 0), From(block, lineStart)) == all
      decreases |block| - lineStart
    {
      errorCode, lineStart := ParseLineAt(request, block, lineStart);
      if errorCode != 0 {
        return;
      }
    }
  }

  function From(block: string, i: nat): string {
    if i < |block| then block[i..] else ""
  }

  method ParseLineAt(request: HttpRequest, block: string, lineStart: nat)
      returns (errorCode: nat, next: nat)
    requires lineStart < |block|
    modifies request`headers
    ensures next > lineStart
    ensures AddLines(old(View(request, 0)), From(block, lineStart))
         == if errorCode != 0 then View(request, errorCode) else AddLines(View(request, 0), From(block, next))
  {
    hide AddLines, From, AddLine;
    var hit := FindChar(block, '\n', lineStart);
    var nl := if hit.None? then |block| else hit.value;
    var lineEnd := nl;
    if lineEnd > lineStart && block[lineEnd - 1] == '\r' {
      lineEnd := lineEnd - 1;
    }
    LineOfBlock(View(request, 0), block, lineStart, nl, lineEnd);
    errorCode := ParseHeaderLine(request, block, lineStart, lineEnd);
    next := nl + 1;
  }

  lemma {:induction false} LineShape(block: string, start: nat, nl: nat)
    requires start < |block|
    requires nl == match FindChar(block, '\n', start) case None => |block| case Some(i) => i
    ensures var line := UpTo(block[start..], '\n');
            && start <= nl && line == block[start..nl]
            && From(block, nl + 1) == if nl < |block| then block[start..][|line| + 1..] else ""
  {
    UpToIsFind(block, '\n', start);
  }

  lemma {:induction false} AddLinesUnfold(h: Head, rest: string, line: string, more: string)
    requires rest != "" && UpTo(rest, '\n') == line
    requires more == if |line| < |rest| then rest[|line| + 1..] else ""
    ensures AddLines(h, rest)
         == var g := AddLine(h, StripCr(line)); if g.code != 0 then g else AddLines(g, more)
  {
  }

  lemma {:induction false} StripAt(block: string, start: nat, nl: nat, end: nat)
    requires start <= nl <= |block|
    requires end == if nl > start && block[nl - 1] == '\r' then nl - 1 else nl
    ensures StripCr(block[start..nl]) == block[start..end]
  {
  }

  lemma {:induction false} WhatIsLeft(block: string, start: nat)
    requires start < |block|
    ensures From(block, start) == block[start..]
  {
  }

  lemma {:induction false} LineOfBlock(h: Head, block: string, start: nat, nl: nat, end: nat)
    requires start < |block|
    requires nl == match FindChar(block, '\n', start) case None => |block| case Some(i) => i
    requires end == if nl > start && block[nl - 1] == '\r' then nl - 1 else nl
    ensures AddLines(h, From(block, start))
         == var g := AddLine(h, block[start..end]);
            if g.code != 0 then g else AddLines(g, From(block, nl + 1))
  {
    hide AddLine, AddLines, StripCr, UpTo, FindChar, From;
    LineShape(block, start, nl);
    var line := block[start..nl];
    StripAt(block, start, nl, end);
    WhatIsLeft(block, start);
    AddLinesUnfold(h, block[start..], line, From(block, nl + 1));
  }

  method ParseHeaderLine(request: HttpRequest, block: string, lineStart: nat, lineEnd: nat)
      returns (errorCode: nat)
    requires lineStart <= lineEnd <= |block|
    modifies request`headers
    ensures View(request, errorCode) == AddLine(old(View(request, 0)), block[lineStart..lineEnd])
  {
    if lineEnd == lineStart {
      return 0;
    }
    var colonPos := FindChar(block, ':', lineStart);
    ColonInLine(block, lineStart, lineEnd);
    if colonPos.None? || colonPos.value >= lineEnd {
      return BAD_REQUEST;
    }
    var key := TrimIndices(block[lineStart..colonPos.value], BLANKS);
    if key == "" {
      return BAD_REQUEST;
    }
    var value := TrimIndices(block[colonPos.value + 1..lineEnd], BLANKS);
    if ToLower(key) in request.headers {
      return BAD_REQUEST;
    }
    request.headers := request.headers[ToLower(key) := value];
    errorCode := 0;
  }

  /** Searching the colon in the whole block finds the line's own colon, or one outside it. */
  lemma {:induction false} ColonInLine(block: string, start: nat, end: nat)
    requires start <= end <= |block|
    ensures var line, hit := block[start..end], FindChar(block, ':', start);
            var name := UpTo(line, ':');
            if hit.Some? && hit.value < end
            then name == block[start..hit.value] && line[|name| + 1..] == block[hit.value + 1..end]
            else name == line
    decreases end - start
  {
    if start < end && block[start] != ':' {
      ColonInLine(block, start + 1, end);
      assert block[start..end][1..] == block[start + 1..end];
    }
  }

  // ---------- printing ----------

  /** A header field with the blanks around its value. */
  datatype Field = Field(name: string, pre: string, value: string, post: string)

  predicate Plain(s: string) {
    '\r' !in s && '\n' !in s
  }

  predicate Tight(s: string) {
    s != "" ==> s[0] != ' ' && s[0] != '\t' && s[|s| - 1] != ' ' && s[|s| - 1] != '\t'
  }

  predicate Blank(s: string) {
    forall c | c in s :: c == ' ' || c == '\t'
  }

  predicate GoodField(f: Field) {
    && f.name != "" && Plain(f.name) && ':' !in f.name && Tight(f.name)
    && Plain(f.value) && Tight(f.value) && Blank(f.pre) && Blank(f.post)
  }

  function PrintField(f: Field): string {
    f.name + [':'] + (f.pre + f.value + f.post)
  }

  function PrintFields(fs: seq<Field>): string
    requires fs != []
  {
    if |fs| == 1 then PrintField(fs[0]) else PrintField(fs[0]) + CRLF + PrintFields(fs[1..])
  }

  /** The headers after adding the fields: names in lower case, blanks gone. */
  function Meaning(fs: seq<Field>, headers: Headers): Headers {
    if fs == [] then headers else Meaning(fs[1..], headers[ToLower(fs[0].name) := fs[0].value])
  }

  /** Well-formed fields whose names differ, also in lower case, from each other and from
      the names that are there already. */
  ghost predicate GoodFields(fs: seq<Field>, headers: Headers)
    decreases |fs|
  {
    fs != [] ==>
    && GoodField(fs[0]) && ToLower(fs[0].name) !in headers
    && GoodFields(fs[1..], headers[ToLower(fs[0].name) := fs[0].value])
  }

  lemma {:induction false} SplitAtColon(name: string, rest: string)
    requires ':' !in name
    ensures var line := name + [':'] + rest;
            UpTo(line, ':') == name && line != "" && |name| < |line| && line[|name| + 1..] == rest
  {
    UpToIs(name + [':'] + rest, ':', name);
  }

  lemma {:induction false} AddPrintedField(h: Head, f: Field)
    requires GoodField(f) && ToLower(f.name) !in h.headers
    ensures AddLine(h, PrintField(f)) == h.(headers := h.headers[ToLower(f.name) := f.value])
  {
    hide Trim, UpTo;
    SplitAtColon(f.name, f.pre + f.value + f.post);
    PartsAreTrimmed(f);
  }

  lemma {:induction false} PartsAreTrimmed(f: Field)
    requires GoodField(f)
    ensures Trim(f.name, BLANKS) == f.name && Trim(f.pre + f.value + f.post, BLANKS) == f.value
  {
    hide Trim;
    assert "" + f.name + "" == f.name;
    BlanksAre(f.pre);
    BlanksAre(f.post);
    TightIs(f.name);
    TightIs(f.value);
    TrimPadded("", f.name, "", BLANKS);
    TrimPadded(f.pre, f.value, f.post, BLANKS);
  }

  lemma {:induction false} BlanksAre(s: string)
    requires Blank(s)
    ensures forall c | c in s :: c in BLANKS
  {
    assert BLANKS[0] == ' ' && BLANKS[1] == '\t';
  }

  lemma {:induction false} TightIs(s: string)
    requires Tight(s)
    ensures s != "" ==> s[0] !in BLANKS && s[|s| - 1] !in BLANKS
  {
  }

  lemma {:induction false} PrintedFieldIsPlain(f: Field)
    requires GoodField(f)
    ensures Plain(PrintField(f)) && PrintField(f) != ""
  {
  }

  lemma {:induction false} AddFirstLine(h: Head, line: string, rest: string)
    requires Plain(line) && AddLine(h, line).code == 0 && line != ""
    ensures AddLines(h, line) == AddLine(h, line)
    ensures AddLines(h, line + CRLF + rest) == AddLines(AddLine(h, line), rest)
  {
    UpToIs(line, '\n', line);
    var all := line + CRLF + rest;
    UpToIs(all, '\n', line + "\r");
    assert all[|line| + 2..] == rest;
    assert StripCr(line + "\r") == line;
  }

  /** The head parser inverts the printer: the lower-cased map, whatever the blanks were. */
  lemma {:induction false} HeadRoundTrip(h: Head, fs: seq<Field>)
    requires fs != [] && GoodFields(fs, h.headers) && h.code == 0
    ensures AddLines(h, PrintFields(fs)) == h.(headers := Meaning(fs, h.headers))
    decreases |fs|
  {
    PrintedFieldIsPlain(fs[0]);
    AddPrintedField(h, fs[0]);
    var g := AddLine(h, PrintField(fs[0]));
    if |fs| == 1 {
      AddFirstLine(h, PrintField(fs[0]), "");
    } else {
      AddFirstLine(h, PrintField(fs[0]), PrintFields(fs[1..]));
      HeadRoundTrip(g, fs[1..]);
    }
  }

  /** A line of three parts: its characters, and where the spaces are found. */
  lemma {:induction false} LineSpaces(name: string, target: string, version: string)
    requires ' ' !in name && ' ' !in target
    ensures var line, m, u := name + " " + target + " " + version, |name|, |name| + 1 + |target|;
            FindChar(line, ' ', 0) == Some(m) && FindChar(line, ' ', m + 1) == Some(u)
  {
    var line, m, u := name + " " + target + " " + version, |name|, |name| + 1 + |target|;
    forall j | 0 <= j < m ensures line[j] != ' ' {
      assert line[j] == name[j];
    }
    forall j | m < j < u ensures line[j] != ' ' {
      assert line[j] == target[j - m - 1];
    }
    FindCharIs(line, ' ', 0, m);
    FindCharIs(line, ' ', m + 1, u);
  }

  lemma {:induction false} Cuts(a: string, c: string, rest: string)
    requires |c| == 1
    ensures var s := a + c + rest; s[..|a|] == a && s[|a| + 1..] == rest
  {
  }

  lemma {:induction false} LineCuts(name: string, target: string, version: string)
    ensures var line, m, u := name + " " + target + " " + version, |name|, |name| + 1 + |target|;
            line[..m] == name && line[m + 1..u] == target && line[u + 1..] == version
  {
    var front := name + " " + target;
    Cuts(front, " ", version);
    Cuts(name, " ", target);
    var line, m, u := front + " " + version, |name|, |front|;
    assert line[..u] == front;
    assert line[..m] == front[..m] && line[m + 1..u] == front[m + 1..];
  }

  /** The parts of any accepted line; the path ends at the first '?'. */
  lemma {:induction false} LineReads(h: Head, name: string, target: string, version: string)
    requires ' ' !in name && ' ' !in target
    requires version == "HTTP/1.1" || version == "HTTP/1.0"
    ensures ParseLine(h, name + " " + target + " " + version)
         == h.(name := name, path := UpTo(target, '?'), version := version)
  {
    hide FindChar, UpTo;
    LineSpaces(name, target, version);
    LineCuts(name, target, version);
  }

  /** A printed target and version come back. */
  lemma {:induction false} LineRoundTrip(h: Head, name: string, path: string, version: string)
    requires ' ' !in name && ' ' !in path && '?' !in path
    requires version == "HTTP/1.1" || version == "HTTP/1.0"
    ensures ParseLine(h, name + " " + path + " " + version)
         == h.(name := name, path := path, version := version)
  {
    LineReads(h, name, path, version);
    UpToIs(path, '?', path);
  }

  lemma {:induction false} FindCharIs(s: string, c: char, from: nat, i: nat)
    requires from <= i < |s| && s[i] == c && forall j | from <= j < i :: s[j] != c
    ensures FindChar(s, c, from) == Some(i)
    decreases i - from
  {
    if from < i { FindCharIs(s, c, from + 1, i); }
  }

  // ---------- where the header block ends ----------

  const END_OF_HEAD: string := "\r\n\r\n"

  /** `raw` is a block, the first `end` and what follows it. */
  predicate EndOf(raw: string, end: string, block: string, rest: string) {
    var r := Find(raw, end, 0);
    r.Some? && block == raw[..r.value] && rest == raw[r.value + |end|..]
  }

  ghost predicate AllGood(fs: seq<Field>) {
    forall i | 0 <= i < |fs| :: GoodField(fs[i])
  }

  /** After plain, non-empty lines the first empty line is the terminator. */
  lemma {:induction false} EndOfGoodFields(fs: seq<Field>, rest: string)
    requires fs != [] && AllGood(fs)
    ensures var r := Find(PrintFields(fs) + END_OF_HEAD + rest, END_OF_HEAD, 0);
            r.Some? && r.value == |PrintFields(fs)|
    decreases |fs|
  {
    hide Find, GoodField;
    var line := PrintField(fs[0]);
    PrintedFieldIsPlain(fs[0]);
    if |fs| == 1 {
      var all := line + END_OF_HEAD + rest;
      SkipLine(line, END_OF_HEAD + rest);
      assert line + (END_OF_HEAD + rest) == all;
      assert all[|line|..|line| + 4] == END_OF_HEAD;
      FindIs(all, END_OF_HEAD, 0, |line|);
    } else {
      EndOfGoodFields(fs[1..], rest);
      PrintFieldsStartPlain(fs[1..]);
      var tail := PrintFields(fs[1..]) + END_OF_HEAD + rest;
      EndBehindLine(line, tail);
      assert PrintFields(fs) + END_OF_HEAD + rest == line + CRLF + tail;
    }
  }

  lemma {:induction false} GoodFieldsAllGood(fs: seq<Field>, headers: Headers)
    requires GoodFields(fs, headers)
    ensures AllGood(fs)
    decreases |fs|
  {
    if fs != [] { GoodFieldsAllGood(fs[1..], headers[ToLower(fs[0].name) := fs[0].value]); }
  }

  lemma {:induction false} EndOfPrintedFields(fs: seq<Field>, headers: Headers, rest: string)
    requires fs != [] && GoodFields(fs, headers)
    ensures var r := Find(PrintFields(fs) + END_OF_HEAD + rest, END_OF_HEAD, 0);
            r.Some? && r.value == |PrintFields(fs)|
  {
    hide Find, PrintFields, GoodFields;
    GoodFieldsAllGood(fs, headers);
    EndOfGoodFields(fs, rest);
  }

  lemma {:induction false} EndBehindLine(line: string, tail: string)
    requires Plain(line) && tail != "" && tail[0] != '\r'
    requires Find(tail, END_OF_HEAD, 0).Some?
    ensures var r := Find(line + CRLF + tail, END_OF_HEAD, 0);
            r.Some? && r.value == |line| + 2 + Find(tail, END_OF_HEAD, 0).value
  {
    NoEndInLine(line, tail);
    FindBehind(line + CRLF, tail, END_OF_HEAD);
  }

  lemma {:induction false} NoEndInLine(line: string, tail: string)
    requires Plain(line) && tail != "" && tail[0] != '\r'
    ensures forall j: nat | j < |line| + 2 :: !At(line + CRLF + tail, END_OF_HEAD, j)
  {
    var all := line + CRLF + tail;
    SkipLine(line, CRLF + tail);
    assert line + (CRLF + tail) == all;
    forall j: nat | j < |line| + 2 ensures !At(all, END_OF_HEAD, j) {
      if j >= |line| { NoEndHere(all, j, |line| + 2); }
    }
  }

  lemma {:induction false} NoEndHere(s: string, j: nat, k: nat)
    requires k < |s| && k - 2 <= j < k && s[k] != '\r' && s[k - 1] == '\n'
    ensures !At(s, END_OF_HEAD, j)
  {
    if j + 4 <= |s| {
      assert s[j..j + 4][0] == s[j] && s[j..j + 4][2] == s[j + 2];
    }
  }

  lemma {:induction false} PrintFieldsStartPlain(fs: seq<Field>)
    requires fs != [] && GoodField(fs[0])
    ensures PrintFields(fs) != "" && PrintFields(fs)[0] != '\r' && PrintFields(fs)[0] != '\n'
  {
    assert PrintFields(fs)[0] == fs[0].name[0];
  }

  /** Inside a plain line followed by CR LF there is no terminator. */
  lemma {:induction false} SkipLine(line: string, tail: string)
    requires Plain(line)
    ensures forall j: nat | j < |line| :: !At(line + tail, END_OF_HEAD, j)
  {
    var s := line + tail;
    forall j: nat | j < |line| ensures !At(s, END_OF_HEAD, j) {
      if j + 4 <= |s| {
        assert s[j..j + 4][0] == s[j] == line[j];
      }
    }
  }
}
