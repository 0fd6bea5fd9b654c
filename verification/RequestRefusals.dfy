/** With which status the parser refuses a request: 400, 413, 431, 501 or 505. */
module RequestRefusals {
  import opened StringOps
  import opened Letters
  import opened Http
  import opened Incremental
  import opened RequestHead
  import opened RequestBody
  import opened ChunkCoding
  import opened RequestMachine
  import opened RequestAccepts
  import opened RequestTexts
  import BodyParser

  ghost predicate Refused(lims: Limits, limit: nat, text: string, code: nat) {
    var o := RunRequest(lims, Start(limit), text); o.failed && o.s.code == code
  }

  lemma {:induction false} RunFails(lims: Limits, r: Request, buf: string)
    requires RequestMove(lims, r, buf).Failed?
    ensures RunRequest(lims, r, buf) == Outcome(RequestMove(lims, r, buf).next, 0, true)
  {
    hide RequestMove;
    MachineProgress(lims);
  }

  /** A line is refused with 400 unless it has two spaces, and with 505 if another version follows them. */
  lemma {:induction false} LineRefused(lims: Limits, limit: nat, line: string, rest: string)
    requires EndsFirst(line, "\r\n")
    ensures (forall i, j | 0 <= i < j < |line| :: line[i] != ' ' || line[j] != ' ') ==>
              Refused(lims, limit, line + "\r\n" + rest, 400)
    ensures forall name, target, version |
              ' ' !in name && ' ' !in target && line == name + " " + target + " " + version
              && version != "HTTP/1.1" && version != "HTTP/1.0" ::
              Refused(lims, limit, line + "\r\n" + rest, 505)
  {
    hide EndsFirst, FindChar, Find;
    var buf := line + "\r\n" + rest;
    EndsFirstFound(line, "\r\n", rest);
    assert buf[..|line|] == line;
    var h := HeadOf(Start(limit));
    if forall i, j | 0 <= i < j < |line| :: line[i] != ' ' || line[j] != ' ' {
      LineWithoutParts(h, line);
      RunFails(lims, Start(limit), buf);
    }
    forall name, target, version |
      ' ' !in name && ' ' !in target && line == name + " " + target + " " + version
      && version != "HTTP/1.1" && version != "HTTP/1.0"
      ensures Refused(lims, limit, buf, 505)
    {
      LineSpaces(name, target, version);
      LineCuts(name, target, version);
      assert |line| > 0;
      RunFails(lims, Start(limit), buf);
    }
  }

  lemma {:induction false} LineWithoutParts(h: Head, line: string)
    requires h.code == 0 && forall i, j | 0 <= i < j < |line| :: line[i] != ' ' || line[j] != ' '
    ensures ParseLine(h, line).code == 400
  {
    match FindChar(line, ' ', 0)
    case None =>
    case Some(m) => assert FindChar(line, ' ', m + 1).None?;
  }

  /** The request when its line has been read. */
  ghost function BehindLine(limit: nat, p: Parts): Request {
    Start(limit).(phase := HeadersPhase, name := p.name, path := PathOf(p), version := p.version)
  }

  ghost predicate GoodLine(p: Parts) {
    && ' ' !in p.name && ' ' !in p.target && (p.version == "HTTP/1.1" || p.version == "HTTP/1.0")
    && EndsFirst(LineOf(p), "\r\n")
  }

  lemma {:induction false} LineIsRead(lims: Limits, limit: nat, p: Parts, rest: string)
    requires GoodLine(p)
    ensures var o := RunRequest(lims, BehindLine(limit, p), rest);
            RunRequest(lims, Start(limit), LineOf(p) + "\r\n" + rest) == Outcome(o.s, |LineOf(p)| + 2 + o.consumed, o.failed)
  {
    hide RunRequest, Find, ParseLine, LineOf, PathOf;
    EndsFirstFound(LineOf(p), CRLF, rest);
    LineForward(HeadOf(Start(limit)), p);
    var buf := LineOf(p) + CRLF + rest;
    assert buf[..|LineOf(p)|] == LineOf(p) && buf[|LineOf(p)| + 2..] == rest;
    LineHasSpaces(p);
    RequestTakes(lims, Start(limit), buf, BehindLine(limit, p), |LineOf(p)| + 2, rest);
  }

  /** The limits step and the choice of the framing, told by the two headers. */
  ghost function FramingError(h: Headers, limit: nat): nat {
    if "content-length" in h && !ParseSize(10, h["content-length"]).0 then 400
    else if "content-length" in h && limit < ParseSize(10, h["content-length"]).1 then 413
    else if "transfer-encoding" in h && h["transfer-encoding"] != "chunked" then 501
    else if "transfer-encoding" in h && "content-length" in h then 400
    else 0
  }

  lemma {:induction false} FramingFails(lims: Limits, r: Request, buf: string)
    requires r.phase.LimitsPhase? && r.code == 0 && r.f == FRESH_BODY && r.headerBytes <= lims.headerSize
    ensures var e, o := FramingError(r.headers, lims.bodySize(r.path)), RunRequest(lims, r, buf);
            (e != 0 ==> o.failed && o.s.code == e)
            && (e == 0 && o.failed ==> TRANSFER_ENCODING in r.headers)
  {
    hide RunRequest, RunBody, ParseSize;
    var move := RequestMove(lims, r, buf);
    if move.Failed? {
      RunFails(lims, r, buf);
    } else {
      var next := move.next;
      RequestTakes(lims, r, buf, next, 0, buf);
      if HasBody(r.headers) {
        BodyPhaseIsBodyRun(lims, next, buf);
        FramingStarts(next.headers, next.limit, buf);
      } else {
        DoneStops(lims, next, buf);
      }
    }
  }

  lemma {:induction false} FramingStarts(headers: Headers, limit: nat, buf: string)
    requires HasBody(headers)
    ensures var g, o := Init(headers, FRESH_BODY), RunBody(headers, limit, FRESH_BODY, buf);
            (g.code != 0 ==> o == Outcome(g, 0, true)) && (o.failed && g.code == 0 ==> TRANSFER_ENCODING in headers)
  {
    hide ParseSize;
    MovesProgress(headers, limit);
    var g := Init(headers, FRESH_BODY);
    if g.code == 0 {
      BodyTakes(headers, limit, FRESH_BODY, buf, g, 0, buf);
      if g.state.Identity? {
        BodyParser.IdentityRun(headers, limit, g, buf);
      } else if g.state.Complete? {
        CompleteStops(headers, limit, g, buf);
      }
    }
  }

  /** Behind a good line and with its block complete, a request is refused with 400 for its lines, 431 for its
      length, and as the two framing headers say; otherwise only its chunks can still be refused. */
  lemma {:induction false} HeadRefused(lims: Limits, limit: nat, p: Parts, rest: string)
    requires GoodLine(p) && EndsFirst(p.block, "\r\n\r\n")
    ensures var text := LineOf(p) + "\r\n" + (p.block + "\r\n\r\n" + rest);
            var h := HeadersOf(p);
            if !GoodLines(HeaderLines(p.block), map[]) then Refused(lims, limit, text, 400)
            else if lims.headerSize < |p.block| + 4 then Refused(lims, limit, text, 431)
            else
              var e := FramingError(h, lims.bodySize(PathOf(p)));
              (e != 0 ==> Refused(lims, limit, text, e))
              && (e == 0 && RunRequest(lims, Start(limit), text).failed ==> TRANSFER_ENCODING in h)
  {
    hide RunRequest, Find, LineOf, PathOf, AddLines, GoodLines, HeaderLines, Collected, FramingError, GoodLine;
    var r, tail := BehindLine(limit, p), p.block + "\r\n\r\n" + rest;
    LineIsRead(lims, limit, p, tail);
    EndsFirstFound(p.block, "\r\n\r\n", rest);
    assert tail[..|p.block|] == p.block && tail[|p.block| + 4..] == rest;
    HeaderBlockExactly(HeadOf(r), p.block);
    if !GoodLines(HeaderLines(p.block), map[]) {
      BlockCode(HeadOf(r), p.block);
      RunFails(lims, r, tail);
    } else {
      var g := RequestMove(lims, r, tail).next;
      RequestTakes(lims, r, tail, g, |p.block| + 4, rest);
      if lims.headerSize < |p.block| + 4 {
        RunFails(lims, g, rest);
      } else {
        FramingFails(lims, g, rest);
      }
    }
  }

  lemma {:induction false} BlockCode(h: Head, block: string)
    requires h.code == 0
    ensures AddLines(h, block).code == 0 || AddLines(h, block).code == 400
  {
    AddLinesIsAddAll(h, block);
    AllCode(h, HeaderLines(block));
  }

  lemma {:induction false} AllCode(h: Head, ls: seq<string>)
    requires h.code == 0
    ensures AddAll(h, ls).code == 0 || AddAll(h, ls).code == 400
    decreases |ls|
  {
    if ls != [] && AddLine(h, ls[0]).code == 0 { AllCode(AddLine(h, ls[0]), ls[1..]); }
  }

  // ---------- chunks ----------

  ghost predicate BodyRefused(headers: Headers, limit: nat, f: Fields, buf: string, code: nat) {
    var o := RunBody(headers, limit, f, buf); o.failed && o.s.code == code
  }

  lemma {:induction false} BodyFails(headers: Headers, limit: nat, f: Fields, buf: string)
    requires BodyMove(headers, limit, f, buf).Failed?
    ensures RunBody(headers, limit, f, buf) == Outcome(BodyMove(headers, limit, f, buf).next, 0, true)
  {
    hide BodyMove;
    MovesProgress(headers, limit);
  }

  /** A size line is refused with 400 if no number stands before its extension, and with 413 if the chunk does
      not fit the limit any more. */
  lemma {:induction false} SizeRefused(headers: Headers, limit: nat, f: Fields, line: string, rest: string)
    requires f.state.ChunkedSize? && EndsFirst(line, "\r\n") && |f.body| <= limit
    ensures var (ok, n) := ParseSize(16, UpTo(line, ';'));
            && (!ok ==> BodyRefused(headers, limit, f, line + "\r\n" + rest, 400))
            && (ok && n > limit - |f.body| ==> BodyRefused(headers, limit, f, line + "\r\n" + rest, 413))
  {
    hide Find, ParseSize, UpTo;
    var buf := line + "\r\n" + rest;
    EndsFirstFound(line, "\r\n", rest);
    assert buf[..|line|] == line;
    if BodyMove(headers, limit, f, buf).Failed? {
      BodyFails(headers, limit, f, buf);
    }
  }

  /** A chunk whose data is not followed by CR LF is refused with 400. */
  lemma {:induction false} ChunkEndRefused(headers: Headers, limit: nat, f: Fields, size: string, ext: string, data: string,
                                           rest: string)
    requires f.state.ChunkedSize? && data != "" && SizeText(size, ext, |data|) && limit <= SIZE_MAX && |f.body| + |data| <= limit
    requires |rest| >= 2 && !(rest[0] == '\r' && rest[1] == '\n')
    ensures BodyRefused(headers, limit, f, size + ext + "\r\n" + (data + rest), 400)
  {
    hide RunBody, SizeText, SizeMove, At;
    SizeTextFits(size, ext, |data|);
    var g, buf := f.(chunkSize := |data|, state := ChunkedData), data + rest;
    SizeMoveOnLine(limit, f, size, ext, |data|, buf);
    BodyTakes(headers, limit, f, size + ext + "\r\n" + buf, g, |size + ext| + 2, buf);
    assert buf[..|data|] == data;
    NoEndThere(data, rest);
    BodyFails(headers, limit, g, buf);
  }

  lemma {:induction false} NoEndThere(data: string, rest: string)
    requires |rest| >= 2 && !(rest[0] == '\r' && rest[1] == '\n')
    ensures !At(data + rest, CRLF, |data|)
  {
    var buf, n := data + rest, |data|;
    assert buf[n..n + 2][0] == rest[0] && buf[n..n + 2][1] == rest[1];
  }

  /** Good chunks before it do not matter. */
  lemma {:induction false} ChunksAreRead(headers: Headers, limit: nat, f: Fields, cs: seq<Chunk>, more: string)
    requires f.state.ChunkedSize? && limit <= SIZE_MAX && |f.body| + |Payload(cs)| <= limit
    requires forall i | 0 <= i < |cs| :: cs[i].data != "" && SizeText(cs[i].size, cs[i].ext, |cs[i].data|)
    ensures exists n: nat ::
              var o := RunBody(headers, limit, f.(chunkSize := n, body := f.body + Payload(cs)), more);
              RunBody(headers, limit, f, ChunkLines(cs) + more) == Outcome(o.s, |ChunkLines(cs)| + o.consumed, o.failed)
    decreases |cs|
  {
    hide RunBody, SizeText, SizeLine;
    if cs == [] {
      assert "" + more == more && f.body + "" == f.body;
      assert f.(chunkSize := f.chunkSize, body := f.body + Payload(cs)) == f;
    } else {
      var c, g := cs[0], f.(chunkSize := |cs[0].data|, body := f.body + cs[0].data);
      SizeTextFits(c.size, c.ext, |c.data|);
      Associates(ChunkText(c), ChunkLines(cs[1..]), more);
      RunChunk(headers, limit, f, c, ChunkLines(cs[1..]) + more);
      Associates(f.body, c.data, Payload(cs[1..]));
      ChunksAreRead(headers, limit, g, cs[1..], more);
      var n: nat :|
        var o := RunBody(headers, limit, g.(chunkSize := n, body := g.body + Payload(cs[1..])), more);
        RunBody(headers, limit, g, ChunkLines(cs[1..]) + more) == Outcome(o.s, |ChunkLines(cs[1..])| + o.consumed, o.failed);
    }
  }

  /** A chunked body is refused with 408 when the clock has run on too far in a call that brings bytes; in time,
      or without bytes, the call does nothing but run. */
  lemma {:induction false} LateRefused(headers: Headers, limit: nat, f: Fields, buf: string)
    requires buf != "" && f.code == 0
    requires f.state in {ChunkedSize, ChunkedData, ChunkedCrlf}
             || (f.state.Uninitialized? && CONTENT_LENGTH !in headers
                 && TRANSFER_ENCODING in headers && headers[TRANSFER_ENCODING] == "chunked")
    ensures var o := Parse(headers, limit, true, f, buf); o.failed && o.consumed == 0 && o.s.code == 408
  {
  }

  lemma {:induction false} InTime(headers: Headers, limit: nat, late: bool, f: Fields, buf: string)
    requires !late || buf == "" || !(f.state in {Uninitialized, ChunkedSize, ChunkedData, ChunkedCrlf})
             || (f.state.Uninitialized? && TRANSFER_ENCODING !in headers)
    ensures Parse(headers, limit, late, f, buf) == RunBody(headers, limit, f, buf)
  {
  }
}
