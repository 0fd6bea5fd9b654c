/** src/Cgi/CgiResponseParser.cpp: the output of a CGI program split into headers and body. */
module CgiResponse {
  import opened StringOps
  import H = RequestHead
  import L = Letters

  /** What the parser holds; the status code is 200 until a Status header changes it. */
  datatype Reply = Reply(found: bool, hasStatus: bool, code: nat, headers: map<string, string>, body: string)

  const NOTHING := Reply(false, false, 200, map[], "")

  predicate HasStatus(p: Reply) {
    p.hasStatus
  }

  const SPACES := " \t\n\r\U{000B}\U{000C}"

  function LeadingDigits(s: string): string {
    if s != "" && '0' <= s[0] <= '9' then [s[0]] + LeadingDigits(s[1..]) else ""
  }

  /** The int that operator>> reads: blanks skipped, a sign, digits up to the first other character, 0 without
      digits. A text of blanks leaves the code as it was; codes outside 100 to 599 become 500. */
  function StatusCode(text: string, before: nat): nat {
    var t := TrimLeft(text, SPACES);
    if t == "" then before
    else
      var (ok, n) := ParseSize(10, LeadingDigits(if t[0] == '+' then t[1..] else t));
      if ok && 100 <= n <= 599 then n else 500
  }

  /** A header of the program, or its Status. */
  function TakeHeader(p: Reply, key: string, value: string): Reply {
    if ToLower(key) == "status" then p.(hasStatus := true, code := StatusCode(value, p.code))
    else p.(headers := p.headers[key := value])
  }

  /** One line of the header block; lines without a colon are skipped. */
  function TakeLine(p: Reply, line: string): Reply {
    if line == "" || line == "\r" then p
    else
      var name := UpTo(line, ':');
      if |name| == |line| then p
      else TakeHeader(p, Trim(name, " \t"), TrimRight(TrimLeft(line[|name| + 1..], " \t"), " \t\r"))
  }

  function TakeLines(p: Reply, lines: seq<string>): Reply
    decreases |lines|
  {
    if lines == [] then p else TakeLines(TakeLine(p, lines[0]), lines[1..])
  }

  /** The block ends at the first CR LF CR LF, or, when there is none, at the first LF LF. */
  function Parse(raw: string): Reply {
    match Find(raw, "\r\n\r\n", 0)
    case Some(i) => TakeLines(NOTHING.(found := true, body := raw[i + 4..]), Split(raw[..i], '\n'))
    case None =>
      match Find(raw, "\n\n", 0)
      case Some(i) => TakeLines(NOTHING.(found := true, body := raw[i + 2..]), Split(raw[..i], '\n'))
      case None => NOTHING.(body := raw)
  }

  lemma {:induction false} LinesKeepFound(p: Reply, lines: seq<string>)
    ensures var q := TakeLines(p, lines); q.found == p.found && q.body == p.body
    decreases |lines|
  {
    if lines != [] { LinesKeepFound(TakeLine(p, lines[0]), lines[1..]); }
  }

  /** A status can only be known when the header block was found. */
  lemma {:induction false} StatusNeedsHeaders(raw: string)
    ensures HasStatus(Parse(raw)) ==> Parse(raw).found
    ensures Parse(raw).found <==> Find(raw, "\r\n\r\n", 0).Some? || Find(raw, "\n\n", 0).Some?
  {
    var p := Parse(raw);
    match Find(raw, "\r\n\r\n", 0)
    case Some(i) => LinesKeepFound(NOTHING.(found := true, body := raw[i + 4..]), Split(raw[..i], '\n'));
    case None =>
      match Find(raw, "\n\n", 0)
      case Some(i) => LinesKeepFound(NOTHING.(found := true, body := raw[i + 2..]), Split(raw[..i], '\n'));
      case None =>
  }

  // ---------- printed replies are read back ----------

  /** A header block as a program prints it, with CR LF or with LF only. */
  function Eol(crlf: bool): string {
    if crlf then "\r\n" else "\n"
  }

  function PrintHeaders(fs: seq<H.Field>, crlf: bool): string
    requires fs != []
  {
    if |fs| == 1 then H.PrintField(fs[0]) else H.PrintField(fs[0]) + Eol(crlf) + PrintHeaders(fs[1..], crlf)
  }

  function PrintReply(fs: seq<H.Field>, crlf: bool, body: string): string
    requires fs != []
  {
    PrintHeaders(fs, crlf) + (Eol(crlf) + Eol(crlf)) + body
  }

  /** What the headers say: names and values without the blanks around them, the last of a name counts. */
  function Said(p: Reply, fs: seq<H.Field>): Reply
    decreases |fs|
  {
    if fs == [] then p else Said(TakeHeader(p, fs[0].name, fs[0].value), fs[1..])
  }

  lemma {:induction false} FieldIsTaken(p: Reply, f: H.Field, end: string)
    requires H.GoodField(f) && (end == "" || end == "\r")
    ensures TakeLine(p, H.PrintField(f) + end) == TakeHeader(p, f.name, f.value)
  {
    var line := H.PrintField(f) + end;
    hide TakeHeader;
    assert line == f.name + [':'] + (f.pre + f.value + f.post + end);
    H.SplitAtColon(f.name, f.pre + f.value + f.post + end);
    assert line != "\r" by { assert |line| > 1; }
    NameIsTrimmed(f);
    ValueIsTrimmed(f, end);
  }

  lemma {:induction false} NameIsTrimmed(f: H.Field)
    requires H.GoodField(f)
    ensures Trim(f.name, " \t") == f.name && |f.name| > 0
  {
    assert "" + f.name + "" == f.name;
    TrimPadded("", f.name, "", " \t");
  }

  lemma {:induction false} ValueIsTrimmed(f: H.Field, end: string)
    requires H.GoodField(f) && (end == "" || end == "\r")
    ensures TrimRight(TrimLeft(f.pre + f.value + f.post + end, " \t"), " \t\r") == f.value
  {
    hide TrimRight, TrimLeft;
    BlanksAre(f);
    var rest := f.value + f.post + end;
    assert f.pre + f.value + f.post + end == f.pre + rest;
    TrimLeftSkips(f.pre, rest, " \t");
    if f.value == "" {
      TrimLeftSkips(f.post, end, " \t");
      assert rest == f.post + end;
      EndIsTrimmed(end);
    } else {
      CoreStays(f.value, f.post + end);
      assert rest == f.value + (f.post + end);
    }
  }

  lemma {:induction false} BlanksAre(f: H.Field)
    requires H.GoodField(f)
    ensures forall c | c in f.pre || c in f.post :: c in " \t" && c in " \t\r"
    ensures f.value != "" ==> f.value[0] !in " \t" && f.value[|f.value| - 1] !in " \t\r"
  {
    assert " \t"[0] == ' ' && " \t"[1] == '\t' && " \t\r"[0] == ' ' && " \t\r"[1] == '\t';
    assert f.value != "" ==> f.value[|f.value| - 1] in f.value;
  }

  lemma {:induction false} EndIsTrimmed(end: string)
    requires end == "" || end == "\r"
    ensures TrimRight(TrimLeft(end, " \t"), " \t\r") == ""
  {
    assert TrimLeft(end, " \t") == end;
    assert "\r"[..0] == "";
  }

  lemma {:induction false} CoreStays(core: string, post: string)
    requires core != "" && core[0] !in " \t" && core[|core| - 1] !in " \t\r"
    requires forall c | c in post :: c in " \t\r"
    ensures TrimRight(TrimLeft(core + post, " \t"), " \t\r") == core
  {
    TrimRightSkips(core, post, " \t\r");
    assert (core + post)[0] == core[0];
  }

  lemma {:induction false} HeadersAreTaken(p: Reply, fs: seq<H.Field>, crlf: bool)
    requires fs != [] && H.AllGood(fs)
    ensures TakeLines(p, Split(PrintHeaders(fs, crlf), '\n')) == Said(p, fs)
    decreases |fs|
  {
    hide TakeLine, TakeHeader, H.GoodField, Split;
    var line, end := H.PrintField(fs[0]), if crlf then "\r" else "";
    H.PrintedFieldIsPlain(fs[0]);
    FieldIsTaken(p, fs[0], "");
    FieldIsTaken(p, fs[0], end);
    OneLine(line);
    OneLine(line + end);
    assert line + "" == line;
    if |fs| == 1 {
      TakeOne(p, line, []);
      assert [line] + [] == [line];
    } else {
      var rest := PrintHeaders(fs[1..], crlf);
      assert PrintHeaders(fs, crlf) == line + end + ['\n'] + rest;
      SplitConcat(line + end, rest, '\n');
      TakeOne(p, line + end, Split(rest, '\n'));
      HeadersAreTaken(TakeHeader(p, fs[0].name, fs[0].value), fs[1..], crlf);
    }
  }

  lemma {:induction false} OneLine(line: string)
    requires '\n' !in line
    ensures Split(line, '\n') == [line]
  {
    UpToIs(line, '\n', line);
  }

  lemma {:induction false} TakeOne(p: Reply, line: string, lines: seq<string>)
    ensures TakeLines(p, [line] + lines) == TakeLines(TakeLine(p, line), lines)
  {
    hide TakeLine;
    assert ([line] + lines)[1..] == lines;
  }

  lemma {:induction false} CrlfHeadersAre(fs: seq<H.Field>)
    requires fs != []
    ensures PrintHeaders(fs, true) == H.PrintFields(fs)
    decreases |fs|
  {
    if |fs| > 1 { CrlfHeadersAre(fs[1..]); }
  }

  /** Every LF is followed by the beginning of a line, and there is no CR. */
  ghost predicate LinesOnly(h: string) {
    && (forall j | 0 <= j < |h| && h[j] == '\n' :: j + 1 < |h| && h[j + 1] != '\n')
    && '\r' !in h && h != "" && h[0] != '\n'
  }

  lemma {:induction false} LfHeadersAre(fs: seq<H.Field>)
    requires fs != [] && H.AllGood(fs)
    ensures LinesOnly(PrintHeaders(fs, false))
    decreases |fs|
  {
    hide H.GoodField;
    var line := H.PrintField(fs[0]);
    H.PrintedFieldIsPlain(fs[0]);
    assert line[0] in line;
    if |fs| > 1 {
      LfHeadersAre(fs[1..]);
      var rest := PrintHeaders(fs[1..], false);
      LineBefore(line, rest);
      assert PrintHeaders(fs, false) == line + "\n" + rest;
    }
  }

  lemma {:induction false} LineBefore(line: string, rest: string)
    requires line != "" && '\n' !in line && '\r' !in line && LinesOnly(rest)
    ensures LinesOnly(line + "\n" + rest)
  {
    var h := line + "\n" + rest;
    forall k | 0 <= k < |line| ensures h[k] != '\n' {
      assert h[k] == line[k] && line[k] in line;
    }
    forall j | |line| <= j < |h| && h[j] == '\n' ensures j + 1 < |h| && h[j + 1] != '\n' {
      if j == |line| {
        assert h[j + 1] == rest[0];
      } else {
        var i := j - |line| - 1;
        assert h[j] == rest[i] && (i + 1 < |rest| ==> h[j + 1] == rest[i + 1]);
      }
    }
    assert line[0] in line;
  }

  lemma {:induction false} FoundBehind(h: string, tail: string)
    requires LinesOnly(h)
    ensures var r := Find(h + "\n\n" + tail, "\n\n", 0); r.Some? && r.value == |h|
    ensures var r, t := Find(h + "\n\n" + tail, "\r\n\r\n", 0), Find(tail, "\r\n\r\n", 0);
            if t.None? then r.None? else r.Some? && r.value == |h| + 2 + t.value
  {
    var raw, pre := h + "\n\n" + tail, h + "\n\n";
    forall j: nat | j < |h| ensures !At(raw, "\n\n", j) {
      assert raw[j] == h[j] && (j + 1 < |h| ==> raw[j + 1] == h[j + 1]);
      assert j + 2 <= |raw| ==> raw[j..j + 2][0] == raw[j] && raw[j..j + 2][1] == raw[j + 1];
    }
    assert raw[|h|..|h| + 2] == "\n\n";
    FindIs(raw, "\n\n", 0, |h|);
    forall j: nat | j < |pre| ensures !At(raw, "\r\n\r\n", j) {
      assert raw[j] == pre[j] && (j < |h| ==> pre[j] == h[j] && h[j] in h) && (j >= |h| ==> pre[j] == '\n');
      assert raw[j] != '\r' && "\r\n\r\n"[0] == '\r';
      assert j + 4 <= |raw| ==> raw[j..j + 4][0] == raw[j];
    }
    FindPast(pre, tail, "\r\n\r\n", 0);
  }

  lemma {:induction false} FindPast(pre: string, tail: string, p: string, from: nat)
    requires from <= |pre| && p != "" && forall j: nat | j < |pre| :: !At(pre + tail, p, j)
    ensures var r, t := Find(pre + tail, p, from), Find(tail, p, 0);
            if t.None? then r.None? else r.Some? && r.value == |pre| + t.value
    decreases |pre| - from
  {
    if from < |pre| {
      assert !At(pre + tail, p, from);
      FindPast(pre, tail, p, from + 1);
    } else {
      FindAppend(pre, tail, p, 0);
    }
  }

  /** The reply that the printed text stands for. */
  function Expected(fs: seq<H.Field>, body: string): Reply {
    Said(NOTHING.(found := true, body := body), fs)
  }

  lemma {:induction false} BlockIsTaken(raw: string, fs: seq<H.Field>, crlf: bool, body: string)
    requires fs != [] && H.AllGood(fs) && raw == PrintReply(fs, crlf, body)
    requires crlf || Find(body, "\r\n\r\n", 0).None?
    ensures Parse(raw) == Expected(fs, body)
  {
    hide Find, Split, TakeLines, Said, H.AllGood, PrintHeaders;
    var h := PrintHeaders(fs, crlf);
    HeadersAreTaken(NOTHING.(found := true, body := body), fs, crlf);
    if crlf {
      CrlfHeadersAre(fs);
      H.EndOfGoodFields(fs, body);
      assert raw == h + "\r\n\r\n" + body;
      assert raw[..|h|] == h && raw[|h| + 4..] == body;
    } else {
      LfHeadersAre(fs);
      FoundBehind(h, body);
      assert raw == h + "\n\n" + body;
      assert raw[..|h|] == h && raw[|h| + 2..] == body;
    }
  }

  lemma {:induction false} BodyIsCut(raw: string, fs: seq<H.Field>, body: string)
    requires fs != [] && H.AllGood(fs) && raw == PrintReply(fs, false, body)
    requires Find(body, "\r\n\r\n", 0).Some?
    ensures Parse(raw).body == body[Find(body, "\r\n\r\n", 0).value + 4..]
  {
    hide Find, Split, TakeLines, H.AllGood, PrintHeaders;
    var h, k := PrintHeaders(fs, false), Find(body, "\r\n\r\n", 0).value;
    LfHeadersAre(fs);
    FoundBehind(h, body);
    assert raw == h + "\n\n" + body;
    LinesKeepFound(NOTHING.(found := true, body := raw[|h| + 2 + k + 4..]), Split(raw[..|h| + 2 + k], '\n'));
    assert raw[|h| + 2 + k + 4..] == body[k + 4..];
  }

  lemma {:induction false} SaidKeepsBody(p: Reply, fs: seq<H.Field>)
    ensures Said(p, fs).body == p.body && Said(p, fs).found == p.found
    decreases |fs|
  {
    hide StatusCode;
    if fs != [] { SaidKeepsBody(TakeHeader(p, fs[0].name, fs[0].value), fs[1..]); }
  }

  /** A printed reply is read back exactly, unless its lines end with LF and its body contains an empty
      CR LF line: then headers and body are cut inside the body. */
  lemma {:induction false} ReplyRoundTrip(fs: seq<H.Field>, crlf: bool, body: string)
    requires fs != [] && H.AllGood(fs)
    ensures Parse(PrintReply(fs, crlf, body)) == Expected(fs, body)
       <==> crlf || Find(body, "\r\n\r\n", 0).None?
  {
    hide Find, Parse, Said, H.AllGood, PrintHeaders;
    SaidKeepsBody(NOTHING.(found := true, body := body), fs);
    if crlf || Find(body, "\r\n\r\n", 0).None? {
      BlockIsTaken(PrintReply(fs, crlf, body), fs, crlf, body);
    } else {
      BodyIsCut(PrintReply(fs, crlf, body), fs, body);
      FindInside(body, "\r\n\r\n", 0);
    }
  }

  lemma {:induction false} FindInside(s: string, p: string, from: nat)
    ensures Find(s, p, from).Some? ==> Find(s, p, from).value + |p| <= |s|
  {
  }

  lemma {:induction false} DigitsBeforeText(digits: string, rest: string)
    requires Digits(10, digits) && (rest == "" || !('0' <= rest[0] <= '9'))
    ensures LeadingDigits(digits + rest) == digits
  {
    if digits == "" {
      assert digits + rest == rest;
    } else {
      assert Digit(10, digits[0]).Some?;
      assert (digits + rest)[1..] == digits[1..] + rest;
      DigitsBeforeText(digits[1..], rest);
    }
  }

  /** The code of a Status header is the number it begins with, if that is one from 100 to 599; else 500. */
  lemma {:induction false} StatusCodeExact(digits: string, rest: string, before: nat)
    requires digits != "" && Digits(10, digits) && (rest == "" || !('0' <= rest[0] <= '9'))
    ensures StatusCode(digits + rest, before) == if 100 <= Value(10, digits) <= 599 then Value(10, digits) else 500
  {
    hide Value, ParseSize;
    var t := digits + rest;
    assert Digit(10, digits[0]).Some? && t[0] == digits[0];
    assert TrimLeft(t, SPACES) == t;
    DigitsBeforeText(digits, rest);
    ParseSizeExact(10, digits);
  }

  // ---------- what a reply says, field by field ----------

  predicate IsStatus(name: string) {
    L.Alike(name, "status")
  }

  lemma {:induction false} StatusName(name: string)
    ensures ToLower(name) == "status" <==> IsStatus(name)
  {
    L.NamesMeet(name, "status");
    assert ToLower("status") == "status";
  }

  /** The headers: a name has a value exactly if a field carries it that is no Status, and it is the last one's. */
  lemma {:induction false} SaidHeaders(p: Reply, fs: seq<H.Field>, key: string)
    ensures var h := Said(p, fs).headers;
            && (key in h <==> key in p.headers || exists i | 0 <= i < |fs| :: fs[i].name == key && !IsStatus(key))
            && (forall i | 0 <= i < |fs| && fs[i].name == key && !IsStatus(key) && (forall j | i < j < |fs| :: fs[j].name != key) ::
                  key in h && h[key] == fs[i].value)
            && ((forall i | 0 <= i < |fs| :: fs[i].name != key) && key in p.headers ==> key in h && h[key] == p.headers[key])
    decreases |fs|
  {
    hide StatusCode, IsStatus, ToLower;
    if fs != [] {
      var q, tail := TakeHeader(p, fs[0].name, fs[0].value), fs[1..];
      StatusName(fs[0].name);
      SaidHeaders(q, tail, key);
      assert forall i | 0 <= i < |tail| :: tail[i] == fs[i + 1];
      assert forall i | 0 < i < |fs| :: fs[i] == tail[i - 1];
      forall i | 0 <= i < |fs| && fs[i].name == key && !IsStatus(key) && (forall j | i < j < |fs| :: fs[j].name != key)
        ensures key in Said(p, fs).headers && Said(p, fs).headers[key] == fs[i].value
      {
        if i > 0 {
          assert tail[i - 1].name == key && forall j | i - 1 < j < |tail| :: tail[j].name != key;
        }
      }
    }
  }

  predicate Blank(s: string) {
    forall c | c in s :: c == ' ' || c == '\t' || c == '\n' || c == '\r' || c == '\U{000B}' || c == '\U{000C}'
  }

  lemma {:induction false} SpacesAre(c: char)
    ensures c in SPACES <==> c == ' ' || c == '\t' || c == '\n' || c == '\r' || c == '\U{000B}' || c == '\U{000C}'
  {
  }

  lemma {:induction false} BlankSplits(s: string)
    requires s != ""
    ensures Blank(s) <==> s[0] in SPACES && Blank(s[1..])
  {
    SpacesAre(s[0]);
    var t := [s[0]] + s[1..];
    assert s == t && s[0] in t;
    forall c ensures c in s <==> c == s[0] || c in s[1..] {
      assert c in t <==> c in [s[0]] || c in s[1..];
    }
  }

  lemma {:induction false} TrimBlank(s: string)
    ensures TrimLeft(s, SPACES) == "" <==> Blank(s)
    decreases |s|
  {
    hide Blank;
    if s == "" {
      NothingIsBlank();
    } else {
      TrimBlank(s[1..]);
      BlankSplits(s);
    }
  }

  lemma {:induction false} NothingIsBlank()
    ensures Blank("")
  {
  }

  /** A blank Status leaves the code, any other sets it whatever it was. */
  lemma {:induction false} StatusCodeSets(text: string, a: nat, b: nat)
    ensures Blank(text) ==> StatusCode(text, a) == a
    ensures !Blank(text) ==> StatusCode(text, a) == StatusCode(text, b)
  {
    TrimBlank(text);
  }

  /** A number printed in decimal, behind blanks, a plus sign and zeros, is the code if it is one from 100 to 599. */
  lemma {:induction false} PrintedStatusCode(pre: string, plus: bool, k: nat, n: nat, rest: string, before: nat)
    requires Blank(pre) && (rest == "" || !('0' <= rest[0] <= '9'))
    ensures StatusCode(pre + ((if plus then "+" else "") + (L.Zeros(k) + L.Dec(n)) + rest), before)
         == if 100 <= n <= 599 then n else 500
  {
    hide Digits, Value, L.Numeral, ParseSize, LeadingDigits, TrimLeft;
    var digits := L.Zeros(k) + L.Dec(n);
    L.AlikeSame(digits);
    L.NumeralWorth(10, digits, k, n);
    ParseSizeExact(10, digits);
    DigitsBeforeText(digits, rest);
    FirstIsDigit(digits);
    var t := (if plus then "+" else "") + digits + rest;
    assert t[0] == if plus then '+' else digits[0];
    assert plus ==> t[1..] == digits + rest;
    assert !plus ==> t == digits + rest;
    assert t[0] in t[..1];
    BlankGoes(pre, t);
  }

  lemma {:induction false} FirstIsDigit(digits: string)
    requires digits != "" && Digits(10, digits)
    ensures '0' <= digits[0] <= '9'
  {
    assert Digit(10, digits[0]).Some?;
  }

  lemma {:induction false} BlankGoes(pre: string, t: string)
    requires Blank(pre) && t != "" && !Blank(t[..1])
    ensures TrimLeft(pre + t, SPACES) == t
  {
    forall c | c in pre ensures c in SPACES {
      SpacesAre(c);
    }
    SpacesAre(t[0]);
    assert t[..1] == [t[0]];
    TrimLeftSkips(pre, t, SPACES);
  }

  /** A Status that begins otherwise, negative numbers included, is 500. */
  lemma {:induction false} OtherStatusCode(pre: string, t: string, before: nat)
    requires Blank(pre) && t != "" && !Blank(t[..1]) && !('0' <= t[0] <= '9')
    requires t[0] == '+' && |t| > 1 ==> !('0' <= t[1] <= '9')
    ensures StatusCode(pre + t, before) == 500
  {
    hide TrimLeft;
    BlankGoes(pre, t);
  }

  /** The status: it is known exactly if some field is a Status, and the last that is not blank gives the code. */
  lemma {:induction false} SaidStatus(p: Reply, fs: seq<H.Field>)
    ensures var q := Said(p, fs);
            && (q.hasStatus <==> p.hasStatus || exists i | 0 <= i < |fs| :: IsStatus(fs[i].name))
            && (forall i | 0 <= i < |fs| && IsStatus(fs[i].name) && !Blank(fs[i].value)
                           && (forall j | i < j < |fs| && IsStatus(fs[j].name) :: Blank(fs[j].value)) ::
                  q.code == StatusCode(fs[i].value, 200))
            && ((forall i | 0 <= i < |fs| && IsStatus(fs[i].name) :: Blank(fs[i].value)) ==> q.code == p.code)
    decreases |fs|
  {
    hide StatusCode, IsStatus, Blank, ToLower;
    if fs != [] {
      var q, tail := TakeHeader(p, fs[0].name, fs[0].value), fs[1..];
      StatusName(fs[0].name);
      StatusCodeSets(fs[0].value, p.code, 200);
      SaidStatus(q, tail);
      assert forall i | 0 <= i < |tail| :: tail[i] == fs[i + 1];
      assert forall i | 0 < i < |fs| :: fs[i] == tail[i - 1];
      forall i | 0 <= i < |fs| && IsStatus(fs[i].name) && !Blank(fs[i].value)
                 && (forall j | i < j < |fs| && IsStatus(fs[j].name) :: Blank(fs[j].value))
        ensures Said(p, fs).code == StatusCode(fs[i].value, 200)
      {
        if i > 0 {
          assert tail[i - 1] == fs[i] && forall j | i - 1 < j < |tail| && IsStatus(tail[j].name) :: Blank(tail[j].value);
        }
      }
    }
  }

  /** What a printed reply comes back as, told from its fields alone. */
  lemma {:induction false} PrintedReplyMeans(fs: seq<H.Field>, crlf: bool, body: string, key: string)
    requires fs != [] && H.AllGood(fs) && (crlf || Find(body, "\r\n\r\n", 0).None?)
    ensures var r := Parse(PrintReply(fs, crlf, body));
            && r.found && r.body == body
            && (key in r.headers <==> exists i | 0 <= i < |fs| :: fs[i].name == key && !IsStatus(key))
            && (forall i | 0 <= i < |fs| && fs[i].name == key && !IsStatus(key) && (forall j | i < j < |fs| :: fs[j].name != key) ::
                  r.headers[key] == fs[i].value)
            && (r.hasStatus <==> exists i | 0 <= i < |fs| :: IsStatus(fs[i].name))
            && (forall i | 0 <= i < |fs| && IsStatus(fs[i].name) && !Blank(fs[i].value)
                           && (forall j | i < j < |fs| && IsStatus(fs[j].name) :: Blank(fs[j].value)) ::
                  r.code == StatusCode(fs[i].value, 200))
            && ((forall i | 0 <= i < |fs| && IsStatus(fs[i].name) :: Blank(fs[i].value)) ==> r.code == 200)
  {
    hide Parse, Said, IsStatus, Blank, StatusCode, Find, H.AllGood;
    ReplyRoundTrip(fs, crlf, body);
    var p := NOTHING.(found := true, body := body);
    SaidKeepsBody(p, fs);
    SaidHeaders(p, fs, key);
    SaidStatus(p, fs);
  }

  /** The fields of a block of any lines: those with a colon; name and value stand around the first one. */
  function Entries(lines: seq<string>): seq<H.Field> {
    if lines == [] then []
    else
      var name := UpTo(lines[0], ':');
      if |name| < |lines[0]|
      then [H.Field(Trim(name, " \t"), "", TrimRight(TrimLeft(lines[0][|name| + 1..], " \t"), " \t\r"), "")] + Entries(lines[1..])
      else Entries(lines[1..])
  }

  /** Every output with a header block says what its entries say, however they are written. */
  lemma {:induction false} LinesSay(p: Reply, lines: seq<string>)
    ensures TakeLines(p, lines) == Said(p, Entries(lines))
    decreases |lines|
  {
    hide TakeHeader;
    if lines != [] {
      var line := lines[0];
      assert UpTo("", ':') == "" && UpTo("\r", ':') == "\r";
      LinesSay(TakeLine(p, line), lines[1..]);
      if |UpTo(line, ':')| < |line| {
        assert Entries(lines)[1..] == Entries(lines[1..]);
      }
    }
  }

  lemma {:induction false} OutputSays(raw: string, block: string, body: string)
    requires H.EndOf(raw, "\r\n\r\n", block, body)
             || (Find(raw, "\r\n\r\n", 0).None? && H.EndOf(raw, "\n\n", block, body))
    ensures Parse(raw) == Said(NOTHING.(found := true, body := body), Entries(Split(block, '\n')))
  {
    hide TakeLines, Said, Entries, Split;
    LinesSay(NOTHING.(found := true, body := body), Split(block, '\n'));
  }

  class CgiResponseParser {
    var held: Reply

    constructor ()
      ensures held == NOTHING
    {
      held := NOTHING;
    }

    /** CgiResponseParser::parse; the status and the headers of an earlier call are not in
        the way because a worker parses once. */
    method ParseResponse(raw: string)
      requires held == NOTHING
      modifies this
      ensures held == Parse(raw)
    {
      var headerEndPos, headerEndLen := Find(raw, "\r\n\r\n", 0), 4;
      if headerEndPos.None? {
        headerEndPos, headerEndLen := Find(raw, "\n\n", 0), 2;
      }
      if headerEndPos.None? {
        held := held.(body := raw);
        return;
      }
      held := held.(found := true, body := raw[headerEndPos.value + headerEndLen..]);
      ParseHeaders(raw[..headerEndPos.value]);
    }

    /** One turn of the loop: colon, key and value, each trimmed on its own. */
    method ParseLine(line: string)
      modifies this
      ensures held == TakeLine(old(held), line)
    {
      hide StatusCode;
      if line == "" || line == "\r" {
        return;
      }
      UpToIsFind(line, ':', 0);
      assert line[0..] == line;
      var colonPos := FindChar(line, ':', 0);
      if colonPos.None? {
        return;
      }
      var key, value := line[..colonPos.value], line[colonPos.value + 1..];
      key := TrimIndices(key, " \t");
      value := TrimRight(TrimLeft(value, " \t"), " \t\r");
      if ToLower(key) == "status" {
        held := held.(hasStatus := true, code := StatusCode(value, held.code));
      } else {
        held := held.(headers := held.headers[key := value]);
      }
    }

    method ParseHeaders(block: string)
      modifies this
      ensures held == TakeLines(old(held), Split(block, '\n'))
    {
      hide TakeLine;
      var lines := SplitTokens(block, '\n');
      var i := 0;
      while i < |lines|
        invariant i <= |lines| && TakeLines(held, lines[i..]) == TakeLines(old(held), lines)
      {
        assert lines[i..][1..] == lines[i + 1..];
        ParseLine(lines[i]);
        i := i + 1;
      }
    }
  }
}
