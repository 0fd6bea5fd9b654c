/** The whole incremental parser as one machine: request line, headers, limits, body.
    src/Http/Parser/RequestParser.cpp with the limits step of
    src/Middleware/SubPipeline/RequestLimits/RequestLimitsMiddleware.cpp between them. */
module RequestMachine {
  import opened StringOps
  import opened Http
  import opened Incremental
  import opened RequestHead
  import opened RequestBody
  import opened ChunkCoding
  import BodyParser

  /** LimitsPhase is the moment between the header block and the limits step. */
  datatype Phase = LinePhase | HeadersPhase | LimitsPhase | BodyPhase | DonePhase

  datatype Request = Request(
    phase: Phase, code: nat,
    name: string, path: string, version: string, headers: Headers,
    headerBytes: nat, limit: nat, f: Fields)

  /** The configured limits; the one for bodies depends on the location of the path. */
  datatype Limits = Limits(headerSize: nat, bodySize: string -> nat)

  const FRESH_BODY := Fields(Uninitialized, 0, 0, "", 0)

  function Start(limit: nat): Request {
    Request(LinePhase, 0, "", "", "", map[], 0, limit, FRESH_BODY)
  }

  function HeadOf(r: Request): Head {
    Head(r.name, r.path, r.version, r.headers, 0)
  }

  function WithHead(r: Request, h: Head): Request {
    r.(name := h.name, path := h.path, version := h.version, headers := h.headers, code := h.code)
  }

  function WithBody(r: Request, f: Fields): Request {
    r.(f := f.(code := 0), code := f.code, phase := if f.state.Complete? && f.code == 0 then DonePhase else BodyPhase)
  }

  // ---------- the moves ----------

  function LineMove(r: Request, buf: string): Move<Request> {
    match Find(buf, CRLF, 0)
    case None => Stuck
    case Some(i) =>
      if i == 0 then Failed(r.(code := BAD_REQUEST))
      else
        var g := WithHead(r, ParseLine(HeadOf(r), buf[..i]));
        if g.code != 0 then Failed(g) else Took(g.(phase := HeadersPhase), i + 2)
  }

  function HeadersMove(r: Request, buf: string): Move<Request> {
    match Find(buf, END_OF_HEAD, 0)
    case None => Stuck
    case Some(i) =>
      var g := WithHead(r, AddLines(HeadOf(r), buf[..i]));
      if g.code != 0 then Failed(g) else Took(g.(headerBytes := i + 4, phase := LimitsPhase), i + 4)
  }

  function HasBody(headers: Headers): bool {
    TRANSFER_ENCODING in headers || CONTENT_LENGTH in headers
  }

  /** RequestLimitsMiddleware::handle: the error code, and the limit it stores on the way. */
  function CheckLimits(lims: Limits, r: Request): Request {
    if lims.headerSize < r.headerBytes then r.(code := HEADER_FIELDS_TOO_LARGE)
    else
      var g := r.(limit := lims.bodySize(r.path));
      if CONTENT_LENGTH !in r.headers then g
      else
        var (ok, n) := ParseSize(10, r.headers[CONTENT_LENGTH]);
        if !ok then g.(code := BAD_REQUEST)
        else if g.limit < n then g.(code := PAYLOAD_TOO_LARGE)
        else g
  }

  function AfterLimits(r: Request): Phase {
    if HasBody(r.headers) then BodyPhase else DonePhase
  }

  function RequestMove(lims: Limits, r: Request, buf: string): Move<Request> {
    match r.phase
    case LinePhase => LineMove(r, buf)
    case HeadersPhase => HeadersMove(r, buf)
    case LimitsPhase =>
      var g := CheckLimits(lims, r);
      if g.code != 0 then Failed(g) else Took(g.(phase := AfterLimits(r)), 0)
    case BodyPhase =>
      (match BodyMove(r.headers, r.limit, r.f, buf)
       case Stuck => Stuck
       case Took(g, n) => Took(WithBody(r, g), n)
       case Failed(g) => Failed(WithBody(r, g)))
    case DonePhase => Stuck
  }

  function Machine(lims: Limits): Mover<Request> {
    (r: Request, buf: string) => RequestMove(lims, r, buf)
  }

  const Height: Request -> nat := (r: Request) =>
    match r.phase
    case LinePhase => 2
    case HeadersPhase => 2
    case LimitsPhase => 2
    case BodyPhase => Rank(r.f)
    case DonePhase => 0

  lemma {:induction false} MachineProgress(lims: Limits)
    ensures Progress(Machine(lims), Height)
  {
  }

  lemma {:induction false} RequestMoveStable(lims: Limits, r: Request, buf: string, more: string)
    requires !RequestMove(lims, r, buf).Stuck?
    ensures RequestMove(lims, r, buf + more) == RequestMove(lims, r, buf)
  {
    match r.phase
    case LinePhase =>
      FindStable(buf, more, CRLF, 0);
      var i := Find(buf, CRLF, 0).value;
      assert (buf + more)[..i] == buf[..i];
    case HeadersPhase =>
      FindStable(buf, more, END_OF_HEAD, 0);
      var i := Find(buf, END_OF_HEAD, 0).value;
      assert (buf + more)[..i] == buf[..i];
    case BodyPhase => MoveStable(r.headers, r.limit, r.f, buf, more);
    case _ =>
  }

  lemma {:induction false} MachineStable(lims: Limits)
    ensures Stable(Machine(lims))
  {
    var move := Machine(lims);
    forall r, a, b ensures Unmoved(move, r, a, b) {
      if !move(r, a).Stuck? { RequestMoveStable(lims, r, a, b); }
    }
  }

  ghost function RunRequest(lims: Limits, r: Request, buf: string): (o: Outcome<Request>)
    ensures o.consumed <= |buf|
  {
    MachineProgress(lims);
    Run(Machine(lims), Height, r, buf)
  }

  /** The phases only move forward. */
  function Stage(p: Phase): nat {
    match p case LinePhase => 0 case HeadersPhase => 1 case LimitsPhase => 2 case BodyPhase => 3 case DonePhase => 4
  }

  lemma {:induction false} PhaseOnlyForward(lims: Limits, r: Request, buf: string)
    ensures Stage(r.phase) <= Stage(RunRequest(lims, r, buf).s.phase)
    decreases |buf|, Height(r)
  {
    MachineProgress(lims);
    match RequestMove(lims, r, buf)
    case Took(g, n) => PhaseOnlyForward(lims, g, buf[n..]);
    case _ =>
  }

  // ---------- the body phase is the body decoder ----------

  lemma {:induction false} RequestTakes(lims: Limits, r: Request, buf: string, g: Request, n: nat, rest: string)
    requires RequestMove(lims, r, buf) == Took(g, n) && n <= |buf| && buf[n..] == rest
    ensures RunRequest(lims, r, buf)
         == var o := RunRequest(lims, g, rest); Outcome(o.s, n + o.consumed, o.failed)
  {
    MachineProgress(lims);
    RunTakes(Machine(lims), Height, r, buf, g, n);
  }

  lemma {:induction false} DoneStops(lims: Limits, r: Request, buf: string)
    requires r.phase.DonePhase?
    ensures RunRequest(lims, r, buf) == Outcome(r, 0, false)
  {
  }

  lemma {:induction false} MoveKeepsCode(headers: Headers, limit: nat, f: Fields, buf: string)
    requires f.code == 0
    ensures var m := BodyMove(headers, limit, f, buf);
            && (m.Took? ==> m.next.code == 0)
            && (m.Failed? ==> m.next.code != 0)
  {
  }

  lemma {:induction false} BodyPhaseIsBodyRun(lims: Limits, r: Request, buf: string)
    requires r.phase.BodyPhase? && !r.f.state.Complete? && r.f.code == 0 && r.code == 0
    ensures RunRequest(lims, r, buf)
         == var o := RunBody(r.headers, r.limit, r.f, buf); Outcome(WithBody(r, o.s), o.consumed, o.failed)
    decreases |buf|, Rank(r.f)
  {
    MachineProgress(lims);
    MovesProgress(r.headers, r.limit);
    MoveKeepsCode(r.headers, r.limit, r.f, buf);
    match BodyMove(r.headers, r.limit, r.f, buf)
    case Stuck =>
    case Failed(g) =>
    case Took(g, n) =>
      RequestTakes(lims, r, buf, WithBody(r, g), n, buf[n..]);
      BodyTakes(r.headers, r.limit, r.f, buf, g, n, buf[n..]);
      if g.state.Complete? {
        DoneStops(lims, WithBody(r, g), buf[n..]);
        CompleteStops(r.headers, r.limit, g, buf[n..]);
      } else {
        BodyPhaseIsBodyRun(lims, WithBody(r, g), buf[n..]);
      }
  }

  // ---------- the whole request comes back ----------

  datatype Body = NoBody | Sized(data: string) | InChunks(chunks: seq<Chunk>, end: Ending)

  datatype Message = Message(name: string, path: string, version: string, fields: seq<Field>, body: Body)

  function BodyText(b: Body): string {
    match b case NoBody => "" case Sized(data) => data case InChunks(cs, end) => Encode(cs, end)
  }

  function BodyData(b: Body): string {
    match b case NoBody => "" case Sized(data) => data case InChunks(cs, _) => Payload(cs)
  }

  function LineText(m: Message): string {
    m.name + " " + m.path + " " + m.version
  }

  function Print(m: Message): string
    requires m.fields != []
  {
    LineText(m) + CRLF + PrintFields(m.fields) + END_OF_HEAD + BodyText(m.body)
  }

  /** The headers announce the body in the one way its framing needs. */
  ghost predicate Announces(headers: Headers, b: Body) {
    match b
    case NoBody => !HasBody(headers)
    case Sized(data) =>
      && TRANSFER_ENCODING !in headers && CONTENT_LENGTH in headers
      && var s := headers[CONTENT_LENGTH];
         s != "" && Digits(10, s) && Value(10, s) == |data|
    case InChunks(cs, end) =>
      && CONTENT_LENGTH !in headers && TRANSFER_ENCODING in headers
      && headers[TRANSFER_ENCODING] == "chunked" && ChunkCoding.WellFormed(cs, end)
  }

  ghost predicate GoodMessage(m: Message, lims: Limits) {
    && m.name != "" && Plain(m.name) && ' ' !in m.name
    && Plain(m.path) && ' ' !in m.path && '?' !in m.path
    && (m.version == "HTTP/1.1" || m.version == "HTTP/1.0")
    && m.fields != [] && GoodFields(m.fields, map[])
    && Announces(Meaning(m.fields, map[]), m.body)
    && |PrintFields(m.fields)| + 4 <= lims.headerSize
    && |BodyData(m.body)| <= lims.bodySize(m.path) <= SIZE_MAX
  }

  lemma {:induction false} LineTaken(lims: Limits, m: Message, limit: nat, tail: string)
    requires GoodMessage(m, lims)
    ensures RequestMove(lims, Start(limit), LineText(m) + CRLF + tail)
         == Took(Start(limit).(phase := HeadersPhase, name := m.name, path := m.path, version := m.version),
                 |LineText(m)| + 2)
  {
    var line := LineText(m);
    NoLfNoCrlf(line);
    FindEndOfLine(line, tail);
    assert (line + CRLF + tail)[..|line|] == line;
    LineRoundTrip(HeadOf(Start(limit)), m.name, m.path, m.version);
  }

  lemma {:induction false} HeadersMoveAt(r: Request, buf: string, block: string, headers: Headers)
    requires block <= buf && r.code == 0
    requires var i := Find(buf, END_OF_HEAD, 0); i.Some? && i.value == |block|
    requires AddLines(HeadOf(r), block) == HeadOf(r).(headers := headers)
    ensures HeadersMove(r, buf)
         == Took(r.(headers := headers, headerBytes := |block| + 4, phase := LimitsPhase), |block| + 4)
  {
    assert buf[..|block|] == block;
  }

  lemma {:induction false} LimitsPassed(lims: Limits, r: Request, b: Body, buf: string)
    requires r.phase.LimitsPhase? && r.code == 0 && Announces(r.headers, b)
    requires r.headerBytes <= lims.headerSize && |BodyData(b)| <= lims.bodySize(r.path) <= SIZE_MAX
    ensures RequestMove(lims, r, buf)
         == Took(r.(limit := lims.bodySize(r.path), phase := AfterLimits(r)), 0)
  {
    if b.Sized? { ParseSizeExact(10, r.headers[CONTENT_LENGTH]); }
  }

  lemma {:induction false} SizedRun(headers: Headers, limit: nat, data: string, rest: string)
    requires Announces(headers, Sized(data)) && |data| <= SIZE_MAX
    ensures var o := RunBody(headers, limit, FRESH_BODY, data + rest);
            !o.failed && o.consumed == |data| && o.s.state == Complete && o.s.body == data && o.s.code == 0
  {
    ParseSizeExact(10, headers[CONTENT_LENGTH]);
    var f := Init(headers, FRESH_BODY);
    BodyTakes(headers, limit, FRESH_BODY, data + rest, f, 0, data + rest);
    if data == "" {
      CompleteStops(headers, limit, f, data + rest);
    } else {
      BodyParser.IdentityRun(headers, limit, f, data + rest);
      assert (data + rest)[..|data|] == data;
    }
  }

  lemma {:induction false} BodyTaken(lims: Limits, r: Request, b: Body, rest: string)
    requires r.phase.BodyPhase? && r.code == 0 && r.f == FRESH_BODY && !b.NoBody?
    requires Announces(r.headers, b) && |BodyData(b)| <= r.limit <= SIZE_MAX
    ensures var o := RunRequest(lims, r, BodyText(b) + rest);
            && !o.failed && o.consumed == |BodyText(b)|
            && o.s == r.(phase := DonePhase, f := o.s.f) && o.s.f.body == BodyData(b)
  {
    var buf := BodyText(b) + rest;
    BodyPhaseIsBodyRun(lims, r, buf);
    if b.Sized? {
      SizedRun(r.headers, r.limit, b.data, rest);
    } else {
      var f := FRESH_BODY.(state := ChunkedSize);
      BodyTakes(r.headers, r.limit, FRESH_BODY, buf, f, 0, buf);
      DecodeEncode(r.headers, r.limit, f, b.chunks, b.end, rest);
      assert "" + Payload(b.chunks) == Payload(b.chunks);
    }
  }

  /** Printing a request and running the phases gives it back and takes exactly its bytes. */
  lemma {:induction false} RequestRoundTrip(lims: Limits, m: Message, limit: nat, rest: string)
    requires GoodMessage(m, lims)
    ensures var o := RunRequest(lims, Start(limit), Print(m) + rest);
            && !o.failed && o.consumed == |Print(m)| && o.s.phase == DonePhase && o.s.code == 0
            && o.s.name == m.name && o.s.path == m.path && o.s.version == m.version
            && o.s.headers == Meaning(m.fields, map[]) && o.s.f.body == BodyData(m.body)
  {
    hide RunRequest, PrintFields, AddLines, Meaning, Find;
    var r0 := Start(limit);
    var text3 := BodyText(m.body) + rest;
    var text2 := PrintFields(m.fields) + END_OF_HEAD + text3;
    var text1 := LineText(m) + CRLF + text2;
    assert Print(m) + rest == text1;
    LineTaken(lims, m, limit, text2);
    var r1 := RequestMove(lims, r0, text1).next;
    RequestTakes(lims, r0, text1, r1, |LineText(m)| + 2, text2);
    HeadRoundTrip(HeadOf(r1), m.fields);
    EndOfPrintedFields(m.fields, map[], text3);
    HeadersMoveAt(r1, text2, PrintFields(m.fields), Meaning(m.fields, map[]));
    var r2 := RequestMove(lims, r1, text2).next;
    RequestTakes(lims, r1, text2, r2, |PrintFields(m.fields)| + 4, text3);
    LimitsPassed(lims, r2, m.body, text3);
    var r3 := RequestMove(lims, r2, text3).next;
    RequestTakes(lims, r2, text3, r3, 0, text3);
    if m.body.NoBody? {
      DoneStops(lims, r3, text3);
    } else {
      BodyTaken(lims, r3, m.body, rest);
    }
  }
}
