/** The phase machine of src/Http/Parser/RequestParser.cpp as objects: the parser, the limits
    step, and a connection that runs the phases on each receipt. */
module RequestParser {
  import opened StringOps
  import opened Http
  import opened Incremental
  import opened RequestBody
  import opened RequestMachine
  import opened RequestRuns
  import RequestHead
  import BodyParser

  class RequestParser {
    var errorCode: nat
    var state: Phase
    var maxHeaderBytes: nat
    var lastHeaderBytes: nat
    const bodyParser: BodyParser.RequestBodyParser

    constructor (maxHeaderBytes: nat, now: int)
      ensures errorCode == lastHeaderBytes == 0 && state == LinePhase && this.maxHeaderBytes == maxHeaderBytes
      ensures fresh(bodyParser) && bodyParser.state == Uninitialized
      ensures bodyParser.contentLengthRemaining == bodyParser.chunkSize == 0
    {
      errorCode, lastHeaderBytes, state := 0, 0, LinePhase;
      this.maxHeaderBytes := maxHeaderBytes;
      bodyParser := new BodyParser.RequestBodyParser(now);
    }

    /** The parser together with the request it fills in. */
    function View(req: HttpRequest): Request
      reads this, req, bodyParser
    {
      Request(state, errorCode, req.method_, req.path, req.version, req.headers,
              lastHeaderBytes, req.maxBodySize, bodyParser.View(req, 0))
    }

    /** The outcome of a phase call that performs `m` on `buffer`. */
    static ghost predicate Performs(m: Move<Request>, r: Request, g: Request, buffer: string,
                                    left: string, result: ParseResult)
    {
      match m
      case Stuck => result == ParseIncomplete && g == r && left == buffer
      case Took(next, n) => result == ParseComplete && g == next && n <= |buffer| && left == buffer[n..]
      case Failed(next) => result == ParseError && g == next && left == buffer
    }

    method ParseRequestLine(req: HttpRequest, buffer: string) returns (result: ParseResult, left: string)
      requires errorCode == 0
      modifies this`errorCode, this`state, req`method_, req`path, req`version
      ensures old(state) != LinePhase ==>
                result == ParseError && left == buffer && View(req) == old(View(req)).(code := INTERNAL_SERVER_ERROR)
      ensures old(state) == LinePhase && maxHeaderBytes < |buffer| ==>
                result == ParseError && left == buffer && View(req) == old(View(req)).(code := HEADER_FIELDS_TOO_LARGE)
      ensures old(state) == LinePhase && |buffer| <= maxHeaderBytes ==>
                Performs(LineMove(old(View(req)), buffer), old(View(req)), View(req), buffer, left, result)
    {
      left := buffer;
      if state != LinePhase {
        errorCode := INTERNAL_SERVER_ERROR;
        return ParseError, left;
      }
      if maxHeaderBytes < |buffer| {
        errorCode := HEADER_FIELDS_TOO_LARGE;
        return ParseError, left;
      }
      var crlfPos := Find(buffer, CRLF, 0);
      if crlfPos.None? {
        return ParseIncomplete, left;
      }
      if crlfPos.value == 0 {
        errorCode := BAD_REQUEST;
        return ParseError, left;
      }
      errorCode := RequestHead.ParseRequestLine(req, buffer[..crlfPos.value]);
      if errorCode != 0 {
        return ParseError, left;
      }
      left := buffer[crlfPos.value + 2..];
      state := HeadersPhase;
      result := ParseComplete;
    }

    /** On success the phase is already the one behind the limits step. */
    method ParseHeaders(req: HttpRequest, buffer: string) returns (result: ParseResult, left: string)
      requires errorCode == 0
      modifies this`errorCode, this`state, this`lastHeaderBytes, req`headers
      ensures old(state) != HeadersPhase ==>
                result == ParseError && left == buffer && View(req) == old(View(req)).(code := INTERNAL_SERVER_ERROR)
      ensures old(state) == HeadersPhase ==>
                var r, m := old(View(req)), HeadersMove(old(View(req)), buffer);
                if m.Stuck? && maxHeaderBytes < |buffer| then
                  result == ParseError && left == buffer && View(req) == r.(code := HEADER_FIELDS_TOO_LARGE)
                else if m.Took? then
                  Performs(Took(m.next.(phase := AfterLimits(m.next)), m.n), r, View(req), buffer, left, result)
                else Performs(m, r, View(req), buffer, left, result)
    {
      left := buffer;
      if state != HeadersPhase {
        errorCode := INTERNAL_SERVER_ERROR;
        return ParseError, left;
      }
      var headerEndPos := Find(buffer, RequestHead.END_OF_HEAD, 0);
      if headerEndPos.None? {
        if maxHeaderBytes < |buffer| {
          errorCode := HEADER_FIELDS_TOO_LARGE;
          return ParseError, left;
        }
        return ParseIncomplete, left;
      }
      errorCode := RequestHead.ParseHeaderBlock(req, buffer[..headerEndPos.value]);
      if errorCode != 0 {
        return ParseError, left;
      }
      lastHeaderBytes := headerEndPos.value + 4;
      left := buffer[headerEndPos.value + 4..];
      state := if TRANSFER_ENCODING in req.headers || CONTENT_LENGTH in req.headers then BodyPhase else DonePhase;
      result := ParseComplete;
    }

    method ParseBody(req: HttpRequest, buffer: string, entered: int, now: int)
        returns (result: ParseResult, left: string)
      requires errorCode == 0 && req.maxBodySize <= SIZE_MAX - 2
      requires state == BodyPhase ==> BodyParser.Fits(View(req).f, req.maxBodySize)
      modifies this`errorCode, this`state, bodyParser, req`body
      ensures old(state) != BodyPhase ==>
                result == ParseError && left == buffer && View(req) == old(View(req)).(code := INTERNAL_SERVER_ERROR)
      ensures bodyParser.chunkedTimeoutSec == old(bodyParser.chunkedTimeoutSec)
      ensures old(state) == BodyPhase ==>
                var r := old(View(req));
                var o := Parse(r.headers, r.limit, old(bodyParser.chunkedTimeoutSec > 0 && bodyParser.chunkedTimeoutSec < now - entered), r.f, buffer);
                && View(req).f == o.s.(code := 0) && View(req) == r.(phase := state, code := o.s.code, f := o.s.(code := 0))
                && (o.failed <==> result == ParseError)
                && (o.failed ==> left == buffer && state == BodyPhase)
                && (!o.failed ==> o.consumed <= |buffer| && left == buffer[o.consumed..])
                && (!o.failed ==> (state == if o.s.state.Complete? then DonePhase else BodyPhase))
                && (!o.failed ==> (result == if o.s.state.Complete? then ParseComplete else ParseIncomplete))
    {
      left := buffer;
      if state != BodyPhase {
        errorCode := INTERNAL_SERVER_ERROR;
        return ParseError, left;
      }
      MovesProgress(req.headers, req.maxBodySize);
      var consumed;
      consumed, errorCode, result := bodyParser.ParseBody(req, buffer, entered, now);
      if result == ParseError {
        return;
      }
      if 0 < consumed {
        left := buffer[consumed..];
      }
      if result == ParseComplete {
        state := DonePhase;
      }
    }
  }

  /** One client connection: on each receipt the middlewares run the phases in order. */
  class Connection {
    const parser: RequestParser
    const req: HttpRequest
    const lims: Limits
    var recvBuffer: string
    var failed: bool

    constructor (lims: Limits, maxHeaderBytes: nat, now: int)
      requires forall path :: lims.bodySize(path) <= SIZE_MAX - 2
      ensures fresh(parser) && fresh(req) && fresh(parser.bodyParser)
      ensures this.lims == lims && parser.maxHeaderBytes == maxHeaderBytes && Valid()
      ensures State() == Conn(Start(0), "", false)
    {
      parser := new RequestParser(maxHeaderBytes, now);
      req := new HttpRequest(0);
      this.lims := lims;
      recvBuffer, failed := "", false;
    }

    function State(): Conn<Request>
      reads this, parser, parser.bodyParser, req
    {
      Conn(parser.View(req), recvBuffer, failed)
    }

    ghost predicate Valid()
      reads this, parser, parser.bodyParser, req
    {
      && (forall path :: lims.bodySize(path) <= SIZE_MAX - 2)
      && (!failed ==> parser.errorCode == 0 && parser.state != LimitsPhase && Kept(lims, parser.View(req)))
      && (!failed ==> Settled(lims, parser.View(req)))
    }

    /** The state is what a run from `r` on `buf` ends in. */
    ghost predicate Matches(r: Request, buf: string)
      reads this, parser, parser.bodyParser, req
    {
      var o := RunRequest(lims, r, buf);
      && failed == o.failed && parser.errorCode == o.s.code
      && (!failed ==> parser.View(req) == o.s && o.consumed <= |buf| && recvBuffer == buf[o.consumed..])
    }

    /** RequestLimitsMiddleware::handle. */
    method ApplyLimits()
      requires parser.errorCode == 0
      modifies this`failed, parser`errorCode, req`maxBodySize
      ensures parser.View(req) == CheckLimits(lims, old(parser.View(req)))
      ensures failed == (parser.errorCode != 0)
    {
      failed := false;
      if lims.headerSize < parser.lastHeaderBytes {
        parser.errorCode, failed := HEADER_FIELDS_TOO_LARGE, true;
        return;
      }
      req.maxBodySize := lims.bodySize(req.path);
      if CONTENT_LENGTH in req.headers {
        var ok, contentLength := StrToSize(10, req.headers[CONTENT_LENGTH]);
        if !ok {
          parser.errorCode, failed := BAD_REQUEST, true;
        } else if req.maxBodySize < contentLength {
          parser.errorCode, failed := PAYLOAD_TOO_LARGE, true;
        }
      }
    }

    method BodyStep(now: int)
      requires Valid() && !failed && parser.state == BodyPhase
      modifies this, parser, parser.bodyParser, req
      ensures parser.maxHeaderBytes == old(parser.maxHeaderBytes)
      ensures Matches(old(parser.View(req)), old(recvBuffer))
    {
      ghost var r, buf := parser.View(req), recvBuffer;
      BodyPhaseIsBodyRun(lims, r, buf);
      RunBodyFacts(r.headers, r.limit, r.f, buf);
      var result;
      result, recvBuffer := parser.ParseBody(req, recvBuffer, now, now);
      failed := result == ParseError;
    }

    /** The limits step and the body phase, after the headers are there. */
    method LimitsStep(now: int, ghost r: Request)
      requires (forall path :: lims.bodySize(path) <= SIZE_MAX - 2) && !failed && parser.errorCode == 0
      requires r.phase == LimitsPhase && r.code == 0 && Kept(lims, r)
      requires parser.View(req) == r.(phase := AfterLimits(r))
      modifies this, parser, parser.bodyParser, req
      ensures parser.maxHeaderBytes == old(parser.maxHeaderBytes)
      ensures Matches(r, old(recvBuffer))
    {
      ghost var buf := recvBuffer;
      ApplyLimits();
      if failed {
        return;
      }
      MoveKept(lims, r, buf);
      RequestTakes(lims, r, buf, parser.View(req), 0, buf);
      assert Settled(lims, parser.View(req));
      if parser.state == BodyPhase {
        BodyStep(now);
      } else {
        DoneStops(lims, parser.View(req), buf);
      }
    }

    /** What one receipt must come to: a trip of the size check, or the run. */
    ghost predicate Answers(r: Request, buf: string)
      reads this, parser, parser.bodyParser, req
    {
      var o := RunRequest(lims, r, buf);
      if !o.failed && o.s.phase == HeadersPhase && parser.maxHeaderBytes < |buf| - o.consumed
      then failed && parser.errorCode == HEADER_FIELDS_TOO_LARGE
      else Matches(r, buf)
    }

    method HeadersStep(now: int)
      requires Valid() && !failed && parser.state == HeadersPhase
      modifies this, parser, parser.bodyParser, req
      ensures parser.maxHeaderBytes == old(parser.maxHeaderBytes)
      ensures Answers(old(parser.View(req)), old(recvBuffer))
    {
      ghost var h, text := parser.View(req), recvBuffer;
      ghost var m := HeadersMove(h, text);
      var result;
      result, recvBuffer := parser.ParseHeaders(req, recvBuffer);
      failed := result == ParseError;
      if result == ParseComplete {
        MoveKept(lims, h, text);
        RequestTakes(lims, h, text, m.next, m.n, recvBuffer);
        RunLeavesLimits(lims, m.next, recvBuffer);
        LimitsStep(now, m.next);
      }
    }

    method LineStep(now: int)
      requires Valid() && !failed && parser.state == LinePhase && |recvBuffer| <= parser.maxHeaderBytes
      modifies this, parser, parser.bodyParser, req
      ensures parser.maxHeaderBytes == old(parser.maxHeaderBytes)
      ensures Answers(old(parser.View(req)), old(recvBuffer))
    {
      ghost var r, text := parser.View(req), recvBuffer;
      ghost var m := LineMove(r, text);
      var result;
      result, recvBuffer := parser.ParseRequestLine(req, recvBuffer);
      failed := result == ParseError;
      if result == ParseComplete {
        MoveKept(lims, r, text);
        RequestTakes(lims, r, text, m.next, m.n, recvBuffer);
        HeadersStep(now);
      }
    }

    /** One receipt. The clock stands still while it is handled. */
    method Receive(piece: string, now: int)
      requires Valid()
      modifies this, parser, parser.bodyParser, req
      ensures Valid() && parser.maxHeaderBytes == old(parser.maxHeaderBytes)
      ensures var d := Guarded(parser.maxHeaderBytes, lims, old(State()), piece);
              failed == d.failed && parser.errorCode == d.s.code && (!failed ==> State() == d)
    {
      ghost var r := parser.View(req);
      recvBuffer := recvBuffer + piece;
      ghost var buf := recvBuffer;
      if failed {
        return;
      }
      RunSettled(lims, r, buf);
      if parser.state == LinePhase {
        if parser.maxHeaderBytes < |recvBuffer| {
          var _, left := parser.ParseRequestLine(req, recvBuffer);
          failed := true;
        } else {
          LineStep(now);
        }
      } else if parser.state == HeadersPhase {
        HeadersStep(now);
      } else {
        PhaseOnlyForward(lims, r, buf);
        ApplyLimits();
        if parser.state == BodyPhase {
          BodyStep(now);
        } else {
          DoneStops(lims, r, buf);
        }
      }
    }
  }

  /** The limits step has nothing left to change. */
  predicate Settled(lims: Limits, r: Request) {
    r.phase in {BodyPhase, DonePhase} ==> CheckLimits(lims, r) == r
  }

  /** A run of the body decoder that does not fail ends without an error code. */
  lemma {:induction false} RunBodyFacts(headers: Headers, limit: nat, f: Fields, buf: string)
    requires f.code == 0
    ensures var o := RunBody(headers, limit, f, buf); o.failed <==> o.s.code != 0
    decreases |buf|, Rank(f)
  {
    MovesProgress(headers, limit);
    MoveKeepsCode(headers, limit, f, buf);
    match BodyMove(headers, limit, f, buf)
    case Took(g, n) => RunBodyFacts(headers, limit, g, buf[n..]);
    case _ =>
  }

  /** A run never rests between the headers and the limits step, and keeps them settled. */
  lemma {:induction false} RunSettled(lims: Limits, r: Request, buf: string)
    requires r.code == 0 && Kept(lims, r) && Settled(lims, r)
    ensures var o := RunRequest(lims, r, buf);
            !o.failed ==> o.s.code == 0 && Kept(lims, o.s) && Settled(lims, o.s) && o.s.phase != LimitsPhase
    decreases |buf|, Height(r)
  {
    MachineProgress(lims);
    match RequestMove(lims, r, buf)
    case Took(g, n) =>
      MoveKept(lims, r, buf);
      RunSettled(lims, g, buf[n..]);
    case _ =>
  }

  lemma {:induction false} RunLeavesLimits(lims: Limits, r: Request, buf: string)
    requires r.phase == LimitsPhase && r.code == 0
    ensures var o := RunRequest(lims, r, buf); !o.failed ==> Stage(o.s.phase) > Stage(LimitsPhase)
  {
    MachineProgress(lims);
    var m := RequestMove(lims, r, buf);
    if m.Took? {
      PhaseOnlyForward(lims, m.next, buf[m.n..]);
    }
  }
}
