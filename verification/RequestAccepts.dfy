/** Which byte strings are requests: the parser finishes on exactly those that consist of a request line,
    a header block and a body as the headers announce it, and it reads them off. */
module RequestAccepts {
  import opened StringOps
  import opened Http
  import opened Incremental
  import opened RequestHead
  import opened RequestBody
  import opened ChunkCoding
  import opened RequestMachine
  import opened RequestRuns
  import BodyParser

  // ---------- header blocks ----------

  /** A line of the block that is a header field: a name that is more than blanks, and a colon. */
  predicate IsField(line: string) {
    var name := UpTo(line, ':');
    |name| < |line| && Trim(name, BLANKS) != ""
  }

  function NameOf(line: string): string {
    ToLower(Trim(UpTo(line, ':'), BLANKS))
  }

  function ValueOf(line: string): string
    requires IsField(line)
  {
    Trim(line[|UpTo(line, ':')| + 1..], BLANKS)
  }

  /** The lines of a block: it is cut at every LF, and one CR before it is dropped. */
  function HeaderLines(block: string): seq<string> {
    Stripped(Split(block, '\n'))
  }

  function Stripped(ls: seq<string>): (r: seq<string>)
    ensures |r| == |ls| && forall i | 0 <= i < |ls| :: r[i] == StripCr(ls[i])
  {
    if ls == [] then [] else [StripCr(ls[0])] + Stripped(ls[1..])
  }

  /** Every line is empty or a field, and no name comes twice or is there already. */
  ghost predicate GoodLines(ls: seq<string>, headers: Headers) {
    && (forall i | 0 <= i < |ls| :: ls[i] == "" || (IsField(ls[i]) && NameOf(ls[i]) !in headers))
    && (forall i, j | 0 <= i < j < |ls| && ls[i] != "" && ls[j] != "" :: NameOf(ls[i]) != NameOf(ls[j]))
  }

  /** The fields of the lines, added to the headers. */
  function Collected(ls: seq<string>, headers: Headers): Headers {
    if ls == [] then headers
    else Collected(ls[1..], if IsField(ls[0]) then headers[NameOf(ls[0]) := ValueOf(ls[0])] else headers)
  }

  function AddAll(h: Head, ls: seq<string>): Head
    decreases |ls|
  {
    if ls == [] then h
    else
      var g := AddLine(h, ls[0]);
      if g.code != 0 then g else AddAll(g, ls[1..])
  }

  lemma {:induction false} AddLinesIsAddAll(h: Head, block: string)
    ensures AddLines(h, block) == AddAll(h, HeaderLines(block))
    decreases |block|
  {
    hide AddLine, StripCr;
    var line := UpTo(block, '\n');
    var g := AddLine(h, StripCr(line));
    if |line| == |block| {
      assert HeaderLines(block) == [StripCr(line)];
      assert [StripCr(line)][1..] == [];
      NothingAdded(h);
    } else {
      assert HeaderLines(block)[1..] == HeaderLines(block[|line| + 1..]);
      AddLinesIsAddAll(g, block[|line| + 1..]);
    }
  }

  lemma {:induction false} NothingAdded(h: Head)
    ensures AddLine(h, StripCr("")) == h
  {
  }

  lemma {:induction false} AddLineExactly(h: Head, line: string)
    requires h.code == 0
    ensures AddLine(h, line).code == 0 <==> line == "" || (IsField(line) && NameOf(line) !in h.headers)
    ensures AddLine(h, line).code == 0 ==>
              AddLine(h, line) == h.(headers := if IsField(line) then h.headers[NameOf(line) := ValueOf(line)] else h.headers)
  {
  }

  lemma {:induction false} GoodLinesTail(ls: seq<string>, headers: Headers)
    requires ls != []
    ensures var more := if IsField(ls[0]) then headers[NameOf(ls[0]) := ValueOf(ls[0])] else headers;
            GoodLines(ls, headers) <==>
            (ls[0] == "" || (IsField(ls[0]) && NameOf(ls[0]) !in headers)) && GoodLines(ls[1..], more)
  {
    hide IsField, NameOf, ValueOf;
    var tail := ls[1..];
    NoFieldInEmpty();
    var more := if IsField(ls[0]) then headers[NameOf(ls[0]) := ValueOf(ls[0])] else headers;
    if GoodLines(ls, headers) {
      forall i | 0 <= i < |tail| ensures tail[i] == "" || (IsField(tail[i]) && NameOf(tail[i]) !in more) {
        assert tail[i] == ls[i + 1];
      }
      forall i, j | 0 <= i < j < |tail| && tail[i] != "" && tail[j] != "" ensures NameOf(tail[i]) != NameOf(tail[j]) {
        assert tail[i] == ls[i + 1] && tail[j] == ls[j + 1];
      }
    }
    if (ls[0] == "" || (IsField(ls[0]) && NameOf(ls[0]) !in headers)) && GoodLines(tail, more) {
      forall i | 0 <= i < |ls| ensures ls[i] == "" || (IsField(ls[i]) && NameOf(ls[i]) !in headers) {
        assert i > 0 ==> ls[i] == tail[i - 1];
      }
      forall i, j | 0 <= i < j < |ls| && ls[i] != "" && ls[j] != "" ensures NameOf(ls[i]) != NameOf(ls[j]) {
        assert ls[j] == tail[j - 1] && (i > 0 ==> ls[i] == tail[i - 1]);
      }
    }
  }

  lemma {:induction false} NoFieldInEmpty()
    ensures !IsField("")
  {
  }

  lemma {:induction false} AddAllExactly(h: Head, ls: seq<string>)
    requires h.code == 0
    ensures AddAll(h, ls).code == 0 <==> GoodLines(ls, h.headers)
    ensures AddAll(h, ls).code == 0 ==> AddAll(h, ls) == h.(headers := Collected(ls, h.headers))
    decreases |ls|
  {
    hide AddLine, IsField, NameOf, ValueOf, GoodLines;
    if ls == [] {
      NoLines(h.headers);
    } else {
      AddLineExactly(h, ls[0]);
      GoodLinesTail(ls, h.headers);
      if AddLine(h, ls[0]).code == 0 {
        AddAllExactly(AddLine(h, ls[0]), ls[1..]);
      }
    }
  }

  lemma {:induction false} NoLines(headers: Headers)
    ensures GoodLines([], headers)
  {
  }

  /** Which header blocks are accepted, and what they come to, for every block. */
  lemma {:induction false} HeaderBlockExactly(h: Head, block: string)
    requires h.code == 0
    ensures AddLines(h, block).code == 0 <==> GoodLines(HeaderLines(block), h.headers)
    ensures AddLines(h, block).code == 0 ==>
              AddLines(h, block) == h.(headers := Collected(HeaderLines(block), h.headers))
  {
    AddLinesIsAddAll(h, block);
    AddAllExactly(h, HeaderLines(block));
  }

  /** The collected headers are those of the lines and those that were there, and no others. */
  lemma {:induction false} CollectedMeans(ls: seq<string>, headers: Headers, key: string)
    requires GoodLines(ls, headers)
    ensures forall i | 0 <= i < |ls| && ls[i] != "" && NameOf(ls[i]) == key ::
              IsField(ls[i]) && key in Collected(ls, headers) && Collected(ls, headers)[key] == ValueOf(ls[i])
    ensures (forall i | 0 <= i < |ls| && ls[i] != "" :: NameOf(ls[i]) != key) ==>
              (key in Collected(ls, headers) <==> key in headers)
              && (key in headers ==> Collected(ls, headers)[key] == headers[key])
    decreases |ls|
  {
    hide IsField, NameOf, ValueOf, GoodLines;
    if ls != [] {
      GoodLinesTail(ls, headers);
      NoFieldInEmpty();
      var more := if IsField(ls[0]) then headers[NameOf(ls[0]) := ValueOf(ls[0])] else headers;
      CollectedMeans(ls[1..], more, key);
      NamesInTail(ls, headers, key);
    }
  }

  lemma {:induction false} NamesInTail(ls: seq<string>, headers: Headers, key: string)
    requires ls != [] && GoodLines(ls, headers)
    ensures forall i | 0 <= i < |ls| && ls[i] != "" :: IsField(ls[i]) && (i > 0 ==> ls[i] == ls[1..][i - 1])
    ensures forall i | 0 <= i < |ls| - 1 :: ls[1..][i] == ls[i + 1]
    ensures ls[0] != "" && NameOf(ls[0]) == key ==> forall i | 0 < i < |ls| && ls[i] != "" :: NameOf(ls[i]) != key
  {
  }

  // ---------- the parts of a request ----------

  datatype Parts = Parts(name: string, target: string, version: string, block: string, body: Body)

  function LineOf(p: Parts): string {
    p.name + " " + p.target + " " + p.version
  }

  function PathOf(p: Parts): string {
    UpTo(p.target, '?')
  }

  function HeadersOf(p: Parts): Headers {
    Collected(HeaderLines(p.block), map[])
  }

  function TextOf(p: Parts): string {
    LineOf(p) + CRLF + (p.block + END_OF_HEAD + BodyText(p.body))
  }

  /** `text` followed by `end` has no earlier `end`. */
  predicate EndsFirst(text: string, end: string) {
    var r := Find(text + end, end, 0); r.Some? && r.value == |text|
  }

  ghost predicate GoodParts(lims: Limits, p: Parts) {
    && ' ' !in p.name && ' ' !in p.target && (p.version == "HTTP/1.1" || p.version == "HTTP/1.0")
    && EndsFirst(LineOf(p), CRLF) && EndsFirst(p.block, END_OF_HEAD)
    && GoodLines(HeaderLines(p.block), map[]) && |p.block| + 4 <= lims.headerSize
    && Announces(HeadersOf(p), p.body) && |BodyData(p.body)| <= lims.bodySize(PathOf(p))
  }

  /** A request whose fields are read off these parts. */
  ghost predicate ReadsOff(r: Request, p: Parts) {
    && r.phase == DonePhase && r.code == 0
    && r.name == p.name && r.path == PathOf(p) && r.version == p.version
    && r.headers == HeadersOf(p) && r.f.body == BodyData(p.body)
  }

  lemma {:induction false} LineForward(h: Head, p: Parts)
    requires ' ' !in p.name && ' ' !in p.target && (p.version == "HTTP/1.1" || p.version == "HTTP/1.0")
    ensures ParseLine(h, LineOf(p)) == h.(name := p.name, path := PathOf(p), version := p.version)
  {
    LineReads(h, p.name, p.target, p.version);
  }

  lemma {:induction false} CutTwice(line: string, m: nat, u: nat)
    requires m < u < |line| && line[m] == ' ' && line[u] == ' '
    ensures line == line[..m] + " " + line[m + 1..u] + " " + line[u + 1..]
  {
    assert line[..u] == line[..m] + " " + line[m + 1..u];
    assert line == line[..u] + " " + line[u + 1..];
  }

  lemma {:induction false} LineInverse(h: Head, line: string) returns (p: Parts)
    requires h.code == 0 && ParseLine(h, line).code == 0
    ensures ' ' !in p.name && ' ' !in p.target && (p.version == "HTTP/1.1" || p.version == "HTTP/1.0")
    ensures line == LineOf(p)
  {
    hide FindChar, UpTo;
    FindCharFirst(line, ' ', 0);
    var m := FindChar(line, ' ', 0).value;
    FindCharFirst(line, ' ', m + 1);
    var u := FindChar(line, ' ', m + 1).value;
    p := Parts(line[..m], line[m + 1..u], line[u + 1..], "", NoBody);
    CutTwice(line, m, u);
  }

  lemma {:induction false} FoundEndsFirst(buf: string, end: string)
    requires Find(buf, end, 0).Some?
    ensures var i := Find(buf, end, 0).value;
            EndsFirst(buf[..i], end) && buf == buf[..i] + end + buf[i + |end|..]
  {
    hide Find;
    var i := Find(buf, end, 0).value;
    FindFirst(buf, end, 0);
    var s := buf[..i] + end;
    assert s == buf[..i + |end|];
    forall j: nat | j <= i ensures At(s, end, j) <==> At(buf, end, j) {
      assert s[j..j + |end|] == buf[j..j + |end|];
    }
    FindIs(s, end, 0, i);
  }

  lemma {:induction false} EndsFirstFound(text: string, end: string, rest: string)
    requires EndsFirst(text, end)
    ensures var r := Find(text + end + rest, end, 0); r.Some? && r.value == |text|
  {
    FindStable(text + end, rest, end, 0);
  }

  // ---------- the parts are read off ----------

  lemma {:induction false} LineGoes(lims: Limits, limit: nat, p: Parts, rest: string)
    requires GoodParts(lims, p)
    ensures RequestMove(lims, Start(limit), LineOf(p) + CRLF + rest)
         == Took(Start(limit).(phase := HeadersPhase, name := p.name, path := PathOf(p), version := p.version),
                 |LineOf(p)| + 2)
  {
    hide Find, ParseLine, LineOf, PathOf;
    EndsFirstFound(LineOf(p), CRLF, rest);
    LineForward(HeadOf(Start(limit)), p);
    assert (LineOf(p) + CRLF + rest)[..|LineOf(p)|] == LineOf(p);
    LineHasSpaces(p);
  }

  lemma {:induction false} LineHasSpaces(p: Parts)
    ensures |LineOf(p)| >= 2
  {
  }

  lemma {:induction false} BlockGoes(r: Request, p: Parts, rest: string)
    requires EndsFirst(p.block, END_OF_HEAD) && GoodLines(HeaderLines(p.block), map[])
    requires r.phase.HeadersPhase? && r.code == 0 && r.headers == map[]
    ensures HeadersMove(r, p.block + END_OF_HEAD + rest)
         == Took(r.(headers := HeadersOf(p), headerBytes := |p.block| + 4, phase := LimitsPhase), |p.block| + 4)
  {
    hide Find, AddLines, GoodLines, HeaderLines, Collected;
    EndsFirstFound(p.block, END_OF_HEAD, rest);
    HeaderBlockExactly(HeadOf(r), p.block);
    HeadersMoveAt(r, p.block + END_OF_HEAD + rest, p.block, HeadersOf(p));
  }

  /** Good parts are read off, and exactly their text is taken, whatever follows. */
  lemma {:induction false} PartsAreRead(lims: Limits, limit: nat, p: Parts, rest: string)
    requires GoodParts(lims, p) && lims.bodySize(PathOf(p)) <= SIZE_MAX
    ensures var o := RunRequest(lims, Start(limit), TextOf(p) + rest);
            !o.failed && o.consumed == |TextOf(p)| && ReadsOff(o.s, p)
  {
    hide RunRequest, HeadersMove, LineMove, EndsFirst, GoodLines, HeadersOf, LineOf, PathOf, BodyText, BodyData;
    var r0 := Start(limit);
    var text3 := BodyText(p.body) + rest;
    var text2 := p.block + END_OF_HEAD + text3;
    var text1 := LineOf(p) + CRLF + text2;
    assert TextOf(p) + rest == text1;
    LineGoes(lims, limit, p, text2);
    var r1 := RequestMove(lims, r0, text1).next;
    RequestTakes(lims, r0, text1, r1, |LineOf(p)| + 2, text2);
    BlockGoes(r1, p, text3);
    var r2 := HeadersMove(r1, text2).next;
    RequestTakes(lims, r1, text2, r2, |p.block| + 4, text3);
    LimitsPassed(lims, r2, p.body, text3);
    var r3 := RequestMove(lims, r2, text3).next;
    RequestTakes(lims, r2, text3, r3, 0, text3);
    if p.body.NoBody? {
      DoneStops(lims, r3, text3);
      NoBodyText();
    } else {
      BodyTaken(lims, r3, p.body, rest);
    }
  }

  lemma {:induction false} NoBodyText()
    ensures BodyText(NoBody) == "" && BodyData(NoBody) == ""
  {
  }

  // ---------- and nothing else is ----------

  /** The run ends with a complete request. */
  ghost predicate Finishes(lims: Limits, r: Request, buf: string) {
    var o := RunRequest(lims, r, buf); !o.failed && o.s.phase.DonePhase?
  }

  /** Before the end a run that finishes takes its next move. */
  lemma {:induction false} FinishingMoves(lims: Limits, r: Request, buf: string)
    requires Finishes(lims, r, buf) && !r.phase.DonePhase?
    ensures var move := RequestMove(lims, r, buf);
            && move.Took? && move.n <= |buf| && Finishes(lims, move.next, buf[move.n..])
            && RunRequest(lims, r, buf)
               == var o := RunRequest(lims, move.next, buf[move.n..]); Outcome(o.s, move.n + o.consumed, o.failed)
  {
    hide RequestMove;
    MachineProgress(lims);
  }

  lemma {:induction false} SizedInverse(headers: Headers, limit: nat, buf: string) returns (data: string)
    requires TRANSFER_ENCODING !in headers && CONTENT_LENGTH in headers
    requires var o := RunBody(headers, limit, FRESH_BODY, buf); !o.failed && o.s.state.Complete?
    ensures Announces(headers, Sized(data))
    ensures var o := RunBody(headers, limit, FRESH_BODY, buf); buf[..o.consumed] == data && o.s.body == data
  {
    hide RunBody, Digits, Value;
    MovesProgress(headers, limit);
    ParseSizeExact(10, headers[CONTENT_LENGTH]);
    var f := Init(headers, FRESH_BODY);
    BodyStarts(headers, limit, buf);
    if f.state.Complete? {
      CompleteStops(headers, limit, f, buf);
      data := "";
    } else {
      BodyParser.IdentityRun(headers, limit, f, buf);
      data := buf[..f.remaining];
      assert "" + data == data;
    }
  }

  /** A body run that completes begins with the framing. */
  lemma {:induction false} BodyStarts(headers: Headers, limit: nat, buf: string)
    requires var o := RunBody(headers, limit, FRESH_BODY, buf); !o.failed && o.s.state.Complete?
    ensures var f := Init(headers, FRESH_BODY);
            f.code == 0 && RunBody(headers, limit, FRESH_BODY, buf) == RunBody(headers, limit, f, buf)
  {
    hide Init;
    MovesProgress(headers, limit);
    var f := Init(headers, FRESH_BODY);
    if f.code == 0 {
      BodyTakes(headers, limit, FRESH_BODY, buf, f, 0, buf);
    }
  }

  lemma {:induction false} BodyInverse(lims: Limits, r: Request, buf: string) returns (b: Body)
    requires r.phase.BodyPhase? && r.code == 0 && r.f == FRESH_BODY && HasBody(r.headers) && Finishes(lims, r, buf)
    ensures Announces(r.headers, b)
    ensures var o := RunRequest(lims, r, buf);
            && buf[..o.consumed] == BodyText(b) && o.s.f.body == BodyData(b)
            && o.s == r.(phase := DonePhase, f := o.s.f)
  {
    hide RunRequest, RunBody;
    BodyPhaseIsBodyRun(lims, r, buf);
    if TRANSFER_ENCODING in r.headers {
      BodyStarts(r.headers, r.limit, buf);
      var chunks, end := CompletedIsEncoding(r.headers, r.limit, Init(r.headers, FRESH_BODY), buf);
      b := InChunks(chunks, end);
      assert "" + Payload(chunks) == Payload(chunks);
    } else {
      var data := SizedInverse(r.headers, r.limit, buf);
      b := Sized(data);
    }
  }

  lemma {:induction false} BodyFits(lims: Limits, limit: nat, buf: string)
    ensures var r := RunRequest(lims, Start(limit), buf).s; r.phase.DonePhase? ==> |r.f.body| <= lims.bodySize(r.path)
  {
    hide RequestMove;
    BoundOverRuns(lims, limit, [buf]);
    var c := Conn(Start(limit), "", false);
    assert "" + buf == buf && [buf][1..] == [];
    assert ReceiveAll(Machine(lims), Height, c, [buf]) == Receive(Machine(lims), Height, c, buf);
  }

  /** The line move, read backwards. */
  lemma {:induction false} LineWent(r: Request, buf: string) returns (p: Parts)
    requires r.code == 0 && LineMove(r, buf).Took?
    ensures ' ' !in p.name && ' ' !in p.target && (p.version == "HTTP/1.1" || p.version == "HTTP/1.0")
    ensures EndsFirst(LineOf(p), CRLF) && LineMove(r, buf).n == |LineOf(p)| + 2 && LineOf(p) + CRLF <= buf
    ensures LineMove(r, buf).next == r.(phase := HeadersPhase, name := p.name, path := PathOf(p), version := p.version)
  {
    hide Find, ParseLine, LineOf, PathOf;
    FoundEndsFirst(buf, CRLF);
    p := LineInverse(HeadOf(r), buf[..Find(buf, CRLF, 0).value]);
    LineForward(HeadOf(r), p);
  }

  lemma {:induction false} BlockWent(r: Request, buf: string) returns (block: string)
    requires r.code == 0 && r.headers == map[] && HeadersMove(r, buf).Took?
    ensures EndsFirst(block, END_OF_HEAD) && GoodLines(HeaderLines(block), map[]) && block + END_OF_HEAD <= buf
    ensures HeadersMove(r, buf)
         == Took(r.(headers := Collected(HeaderLines(block), map[]), headerBytes := |block| + 4, phase := LimitsPhase),
                 |block| + 4)
  {
    hide Find, AddLines, GoodLines, HeaderLines, Collected;
    FoundEndsFirst(buf, END_OF_HEAD);
    block := buf[..Find(buf, END_OF_HEAD, 0).value];
    HeaderBlockExactly(HeadOf(r), block);
  }

  lemma {:induction false} Taken(text: string, buf: string, more: nat)
    requires text <= buf && more <= |buf| - |text|
    ensures buf[..|text| + more] == text + buf[|text|..][..more]
  {
  }

  /** What stands behind the limits step. */
  lemma {:induction false} RestInverse(lims: Limits, r: Request, buf: string) returns (b: Body)
    requires r.phase.LimitsPhase? && r.code == 0 && r.f == FRESH_BODY && Finishes(lims, r, buf)
    ensures Announces(r.headers, b) && r.headerBytes <= lims.headerSize
    ensures var o := RunRequest(lims, r, buf);
            && buf[..o.consumed] == BodyText(b) && o.s.f.body == BodyData(b)
            && o.s == r.(phase := DonePhase, limit := lims.bodySize(r.path), f := o.s.f)
  {
    hide RunRequest, ParseSize;
    FinishingMoves(lims, r, buf);
    var r1 := RequestMove(lims, r, buf).next;
    assert buf[0..] == buf;
    if HasBody(r.headers) {
      b := BodyInverse(lims, r1, buf);
    } else {
      b := NoBody;
      DoneStops(lims, r1, buf);
    }
  }

  /** Whatever the parser finishes on begins with the text of good parts, takes exactly that, and reads them off. */
  lemma {:induction false} FinishedIsParts(lims: Limits, limit: nat, buf: string) returns (p: Parts)
    requires Finishes(lims, Start(limit), buf)
    ensures GoodParts(lims, p)
    ensures var o := RunRequest(lims, Start(limit), buf); buf[..o.consumed] == TextOf(p) && ReadsOff(o.s, p)
  {
    hide RunRequest, LineMove, HeadersMove, EndsFirst, GoodLines, HeaderLines, Collected, LineOf, PathOf, BodyText, BodyData,
      Announces, Finishes;
    var r0 := Start(limit);
    FinishingMoves(lims, r0, buf);
    p := LineWent(r0, buf);
    var r1, l := LineMove(r0, buf).next, |LineOf(p)| + 2;
    var buf1 := buf[l..];
    FinishingMoves(lims, r1, buf1);
    var block := BlockWent(r1, buf1);
    var r2, h := HeadersMove(r1, buf1).next, |block| + 4;
    var buf2 := buf1[h..];
    var b := RestInverse(lims, r2, buf2);
    BodyFits(lims, limit, buf);
    var n := RunRequest(lims, r2, buf2).consumed;
    Taken(block + END_OF_HEAD, buf1, n);
    Taken(LineOf(p) + CRLF, buf, h + n);
    var q := p.(block := block, body := b);
    SameLine(p, q);
    p := q;
  }

  lemma {:induction false} SameLine(p: Parts, q: Parts)
    requires p.name == q.name && p.target == q.target && p.version == q.version
    ensures LineOf(p) == LineOf(q) && PathOf(p) == PathOf(q)
  {
  }

  /** The accepted byte strings, exactly. */
  lemma {:induction false} FinishesExactly(lims: Limits, limit: nat, buf: string)
    requires forall path :: lims.bodySize(path) <= SIZE_MAX
    ensures Finishes(lims, Start(limit), buf) <==> exists p :: GoodParts(lims, p) && TextOf(p) <= buf
  {
    hide GoodParts, TextOf, RunRequest, ReadsOff;
    if Finishes(lims, Start(limit), buf) {
      var p := FinishedIsParts(lims, limit, buf);
    }
    if p :| GoodParts(lims, p) && TextOf(p) <= buf {
      PartsAreRead(lims, limit, p, buf[|TextOf(p)|..]);
      assert TextOf(p) + buf[|TextOf(p)|..] == buf;
      ReadsOffIsDone(RunRequest(lims, Start(limit), buf).s, p);
    }
  }

  lemma {:induction false} ReadsOffIsDone(r: Request, p: Parts)
    requires ReadsOff(r, p)
    ensures r.phase.DonePhase?
  {
  }
}
