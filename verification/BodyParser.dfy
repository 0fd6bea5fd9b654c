/** The class of src/Http/Parser/RequestBodyParser.cpp, field by field and loop by loop,
    proved to compute the runs of module RequestBody. */
module BodyParser {
  import opened StringOps
  import opened Http
  import opened Incremental
  import opened RequestBody

  /** What one part of the loop body does next: return and wait for bytes, go on at an
      offset, or return an error. */
  datatype Step = Wait | Advance(offset: nat) | Reject(code: nat)

  /** `step`, taken at `offset` from `f` to `g`, is the move `m`. */
  ghost predicate Performs(m: Move<Fields>, f: Fields, g: Fields, offset: nat, step: Step) {
    match m
    case Stuck => step == Wait && g == f
    case Took(next, n) => step == Advance(offset + n) && g == next
    case Failed(next) => step.Reject? && g.(code := step.code) == next && g.code == f.code
  }

  /** The size check has let the current chunk through, so that its end can be computed. */
  predicate Fits(f: Fields, limit: nat) {
    f.state.ChunkedData? && f.code == 0 ==> f.chunkSize <= limit
  }

  lemma {:induction false} MoveFits(headers: Headers, limit: nat, f: Fields, buf: string)
    requires f.code == 0 && Fits(f, limit) && !BodyMove(headers, limit, f, buf).Stuck?
    ensures Fits(BodyMove(headers, limit, f, buf).next, limit)
  {
  }

  class RequestBodyParser {
    var state: BodyState
    var contentLengthRemaining: nat
    var chunkSize: nat
    var lastReceiveTime: int
    var chunkedTimeoutSec: nat

    constructor (now: int)
      ensures state == Uninitialized && contentLengthRemaining == 0 && chunkSize == 0
      ensures lastReceiveTime == now && chunkedTimeoutSec == 10
    {
      state, contentLengthRemaining, chunkSize := Uninitialized, 0, 0;
      lastReceiveTime, chunkedTimeoutSec := now, 10;
    }

    /** The fields with the body and the error code they belong to. */
    function View(request: HttpRequest, code: nat): Fields
      reads this, request
    {
      Fields(state, contentLengthRemaining, chunkSize, request.body, code)
    }

    /** More than the timeout between the entry of a call that brings bytes and its loop. */
    predicate Late(entered: int, now: int)
      reads this`chunkedTimeoutSec
    {
      chunkedTimeoutSec > 0 && chunkedTimeoutSec < now - entered
    }

    method SetChunkedTimeoutSec(timeoutSec: nat)
      modifies this`chunkedTimeoutSec
      ensures chunkedTimeoutSec == timeoutSec
    {
      chunkedTimeoutSec := timeoutSec;
    }

    method InitFromHeaders(request: HttpRequest, code: nat) returns (errorCode: nat)
      modifies this`state, this`contentLengthRemaining
      ensures View(request, errorCode) == Init(request.headers, old(View(request, code)))
    {
      errorCode := code;
      if TRANSFER_ENCODING in request.headers {
        if request.headers[TRANSFER_ENCODING] == "chunked" {
          if CONTENT_LENGTH in request.headers {
            return BAD_REQUEST;
          }
          state := ChunkedSize;
        } else {
          errorCode := NOT_IMPLEMENTED;
        }
      } else if CONTENT_LENGTH in request.headers {
        var ok, n := StrToSize(10, request.headers[CONTENT_LENGTH]);
        contentLengthRemaining := n;
        if !ok {
          return BAD_REQUEST;
        }
        state := if n == 0 then Complete else Identity;
      } else {
        state := Complete;
      }
    }

    method ParseIdentity(request: HttpRequest, buffer: string)
        returns (consumed: nat, result: ParseResult)
      requires state == Identity
      modifies this, request`body
      ensures unchanged(`lastReceiveTime) && unchanged(`chunkedTimeoutSec)
      ensures RunBody(request.headers, request.maxBodySize, old(View(request, 0)), buffer)
           == Outcome(View(request, 0), consumed, false)
      ensures result == if state.Complete? then ParseComplete else ParseIncomplete
    {
      var toRead := if |buffer| < contentLengthRemaining then |buffer| else contentLengthRemaining;
      IdentityRun(request.headers, request.maxBodySize, View(request, 0), buffer);
      if toRead == 0 {
        return 0, ParseIncomplete;
      }
      request.body := request.body + buffer[..toRead];
      contentLengthRemaining := contentLengthRemaining - toRead;
      if contentLengthRemaining == 0 {
        state := Complete;
        result := ParseComplete;
      } else {
        result := ParseIncomplete;
      }
      consumed := toRead;
    }

    method ReadSize(request: HttpRequest, buffer: string, offset: nat) returns (step: Step)
      requires offset <= |buffer|
      modifies this`state, this`chunkSize
      ensures Performs(SizeMove(request.maxBodySize, old(View(request, 0)), buffer[offset..]),
                       old(View(request, 0)), View(request, 0), offset, step)
    {
      FindDrop(buffer, CRLF, offset, 0);
      var crlfPos := Find(buffer, CRLF, offset);
      if crlfPos.None? {
        return Wait;
      }
      assert buffer[offset..][..crlfPos.value - offset] == buffer[offset..crlfPos.value];
      var ok, size := StrToSize(16, UpTo(buffer[offset..crlfPos.value], ';'));
      chunkSize := size;
      if !ok {
        return Reject(BAD_REQUEST);
      }
      if |request.body| > request.maxBodySize || chunkSize > request.maxBodySize - |request.body| {
        return Reject(PAYLOAD_TOO_LARGE);
      }
      state := if chunkSize == 0 then ChunkedCrlf else ChunkedData;
      step := Advance(crlfPos.value + 2);
    }

    /** `chunkSize + 2` is the source's size_t sum, which wraps. */
    method ReadData(request: HttpRequest, buffer: string, offset: nat) returns (step: Step)
      requires offset <= |buffer| && chunkSize <= SIZE_MAX - 2
      modifies this`state, request`body
      ensures Performs(DataMove(old(View(request, 0)), buffer[offset..]),
                       old(View(request, 0)), View(request, 0), offset, step)
    {
      if |buffer| - offset < (chunkSize + 2) % (SIZE_MAX + 1) {
        return Wait;
      }
      var end := offset + chunkSize;
      assert buffer[offset..][..chunkSize] == buffer[offset..end];
      assert buffer[offset..][chunkSize..chunkSize + 2] == [buffer[end], buffer[end + 1]];
      request.body := request.body + buffer[offset..end];
      if !(buffer[end] == '\r' && buffer[end + 1] == '\n') {
        return Reject(BAD_REQUEST);
      }
      state := ChunkedSize;
      step := Advance(end + 2);
    }

    method ReadTrailers(request: HttpRequest, buffer: string, offset: nat) returns (step: Step)
      requires offset <= |buffer| && state == ChunkedCrlf
      modifies this`state
      ensures Performs(BodyMove(request.headers, request.maxBodySize, old(View(request, 0)), buffer[offset..]),
                       old(View(request, 0)), View(request, 0), offset, step)
    {
      var end := ScanTrailers(buffer, offset);
      if end.None? {
        return Wait;
      }
      state := Complete;
      step := Advance(end.value);
    }

    ghost predicate At(request: HttpRequest, f: Fields, buffer: string, offset: nat)
      reads this, request
    {
      MovesProgress(request.headers, request.maxBodySize);
      && Fits(View(request, 0), request.maxBodySize)
      && Reached(Moves(request.headers, request.maxBodySize), Rank, f, buffer, View(request, 0), offset)
    }

    /** Performs the move that is due and says how the whole run stands then. */
    method TakeDue(request: HttpRequest, ghost f: Fields, buffer: string, offset: nat) returns (step: Step)
      requires request.maxBodySize <= SIZE_MAX - 2 && offset <= |buffer|
      requires Chunked(View(request, 0))
      requires At(request, f, buffer, offset)
      modifies this`state, this`chunkSize, request`body
      ensures step.Wait? ==> Ended(request, f, buffer, Outcome(View(request, 0), offset, false))
      ensures step.Wait? ==> state == old(state)
      ensures step.Reject? ==> Ended(request, f, buffer, Outcome(View(request, step.code), offset, true))
      ensures step.Advance? ==> offset < step.offset <= |buffer| && At(request, f, buffer, step.offset)
      ensures step.Advance? ==>
                match old(state)
                case ChunkedSize => state in {ChunkedData, ChunkedCrlf}
                case ChunkedData => state == ChunkedSize
                case _ => state == Complete && Ended(request, f, buffer, Outcome(View(request, 0), step.offset, false))
    {
      MovesProgress(request.headers, request.maxBodySize);
      ghost var before := View(request, 0);
      if state == ChunkedSize {
        step := ReadSize(request, buffer, offset);
      } else if state == ChunkedData {
        step := ReadData(request, buffer, offset);
      } else {
        step := ReadTrailers(request, buffer, offset);
      }
      if step.Advance? {
        StepAdvances(request.headers, request.maxBodySize, f, buffer, before, View(request, 0), offset, step);
      } else {
        StepEnds(request.headers, request.maxBodySize, f, buffer, before, View(request, 0), offset, step);
      }
    }

    ghost predicate Ended(request: HttpRequest, f: Fields, buffer: string, o: Outcome<Fields>)
      reads request
    {
      RunBody(request.headers, request.maxBodySize, f, buffer) == o
    }

    /** The chunked loop. A turn reads a size line, then data if that is what follows, then
        the trailer section if that is what follows. */
    method ParseChunked(request: HttpRequest, buffer: string, now: int)
        returns (consumed: nat, errorCode: nat, result: ParseResult)
      requires request.maxBodySize <= SIZE_MAX - 2 && Chunked(View(request, 0))
      requires Fits(View(request, 0), request.maxBodySize)
      modifies this`state, this`chunkSize, request`body
      ensures Outcome(View(request, errorCode), consumed, result == ParseError)
           == var f := old(View(request, 0));
              if buffer != "" && Late(lastReceiveTime, now) then Outcome(f.(code := REQUEST_TIMEOUT), 0, true)
              else RunBody(request.headers, request.maxBodySize, f, buffer)
      ensures result != ParseError ==> result == if state.Complete? then ParseComplete else ParseIncomplete
    {
      ghost var f := View(request, 0);
      MovesProgress(request.headers, request.maxBodySize);
      assert buffer[0..] == buffer;
      var offset := 0;
      while offset < |buffer|
        invariant offset <= |buffer| && Chunked(View(request, 0)) && At(request, f, buffer, offset)
        invariant Late(lastReceiveTime, now) ==> offset == 0 && View(request, 0) == f
      {
        if chunkedTimeoutSec > 0 && chunkedTimeoutSec < now - lastReceiveTime {
          return offset, REQUEST_TIMEOUT, ParseError;
        }
        if state == ChunkedSize {
          var step := TakeDue(request, f, buffer, offset);
          match step
          case Wait => return offset, 0, ParseIncomplete;
          case Reject(code) => return offset, code, ParseError;
          case Advance(to) => offset := to;
        }
        if state == ChunkedData {
          var step := TakeDue(request, f, buffer, offset);
          match step
          case Wait => return offset, 0, ParseIncomplete;
          case Reject(code) => return offset, code, ParseError;
          case Advance(to) => offset := to;
        }
        if state == ChunkedCrlf {
          var step := TakeDue(request, f, buffer, offset);
          match step
          case Wait => return offset, 0, ParseIncomplete;
          case Reject(code) => return offset, code, ParseError;
          case Advance(to) => return to, 0, ParseComplete;
        }
      }
      NothingLeft(request.headers, request.maxBodySize, f, buffer, View(request, 0));
      consumed, errorCode, result := offset, 0, ParseIncomplete;
    }

    /** The inner loop over trailer lines: the position past the first empty line. */
    method ScanTrailers(buffer: string, offset: nat) returns (end: Option<nat>)
      requires offset <= |buffer|
      ensures end == TrailerEndFrom(buffer, offset)
    {
      hide Find, TrailerEndFrom;
      var trailerOffset := offset;
      while true
        invariant offset <= trailerOffset <= |buffer|
        invariant TrailerEndFrom(buffer, offset) == TrailerEndFrom(buffer, trailerOffset)
        decreases |buffer| - trailerOffset
      {
        TrailerEndStep(buffer, trailerOffset);
        var crlfPos := Find(buffer, CRLF, trailerOffset);
        if crlfPos.None? {
          return None;
        }
        if crlfPos.value == trailerOffset {
          return Some(trailerOffset + 2);
        }
        trailerOffset := crlfPos.value + 2;
      }
    }

    /** RequestBodyParser::parse. The clock is read on entry and again in the loop. */
    method ParseBody(request: HttpRequest, buffer: string, entered: int, now: int)
        returns (consumed: nat, errorCode: nat, result: ParseResult)
      requires request.maxBodySize <= SIZE_MAX - 2
      requires Fits(View(request, 0), request.maxBodySize)
      modifies this, request`body
      ensures lastReceiveTime == if buffer != "" then entered else old(lastReceiveTime)
      ensures chunkedTimeoutSec == old(chunkedTimeoutSec)
      ensures Outcome(View(request, errorCode), consumed, result == ParseError)
           == Parse(request.headers, request.maxBodySize, chunkedTimeoutSec > 0 && chunkedTimeoutSec < now - entered,
                    old(View(request, 0)), buffer)
      ensures result != ParseError ==> result == if state.Complete? then ParseComplete else ParseIncomplete
    {
      if buffer != "" {
        lastReceiveTime := entered;
      }
      hide RunBody, Init;
      ghost var headers, limit, f := request.headers, request.maxBodySize, View(request, 0);
      errorCode := 0;
      if state == Uninitialized {
        InitKeeps(headers, f);
        RunStarts(headers, limit, f, buffer);
        errorCode := InitFromHeaders(request, 0);
        if errorCode != 0 {
          return 0, errorCode, ParseError;
        }
      }
      if state == Complete {
        RunEnded(headers, limit, View(request, 0), buffer);
        return 0, 0, ParseComplete;
      }
      if state == Identity {
        consumed, result := ParseIdentity(request, buffer);
      } else {
        consumed, errorCode, result := ParseChunked(request, buffer, now);
      }
    }
  }

  lemma {:induction false} RunStarts(headers: Headers, limit: nat, f: Fields, buffer: string)
    requires f.state.Uninitialized?
    ensures var g := Init(headers, f);
            RunBody(headers, limit, f, buffer) == if g.code != 0 then Outcome(g, 0, true) else RunBody(headers, limit, g, buffer)
  {
    hide Init;
    MovesProgress(headers, limit);
    assert buffer[0..] == buffer;
  }

  lemma {:induction false} RunEnded(headers: Headers, limit: nat, f: Fields, buffer: string)
    requires f.state.Complete?
    ensures RunBody(headers, limit, f, buffer) == Outcome(f, 0, false)
  {
    MovesProgress(headers, limit);
  }

  /** Setting up leaves the body alone, and what it sets up fits. */
  lemma {:induction false} InitKeeps(headers: Headers, f: Fields)
    requires f.code == 0 && f.state.Uninitialized?
    ensures var g := Init(headers, f);
            g.body == f.body && g.chunkSize == f.chunkSize
            && (g.code == 0 ==> g.state in {ChunkedSize, Identity, Complete})
            && (g.code != 0 ==> g.state == f.state)
  {
  }

  /** The position in `buffer` where the trailer section that starts at `from` ends. */
  function TrailerEndFrom(buffer: string, from: nat): (r: Option<nat>)
    requires from <= |buffer|
    ensures r.Some? ==> from + 2 <= r.value <= |buffer|
  {
    var e := TrailerEnd(buffer[from..]);
    if e.None? then None else Some(from + e.value)
  }

  lemma {:induction false} TrailerEndStep(buffer: string, from: nat)
    requires from <= |buffer|
    ensures var r := Find(buffer, CRLF, from);
            && (r.None? ==> TrailerEndFrom(buffer, from).None?)
            && (r.Some? && r.value == from ==> TrailerEndFrom(buffer, from) == Some(from + 2))
            && (r.Some? && r.value != from ==> TrailerEndFrom(buffer, from) == TrailerEndFrom(buffer, r.value + 2))
  {
    hide Find;
    FindDrop(buffer, CRLF, from, 0);
    var r := Find(buffer, CRLF, from);
    if r.Some? {
      DropTwice(buffer, from, r.value + 2 - from);
    }
  }

  lemma {:induction false} ChunkedMoveTakes(headers: Headers, limit: nat, f: Fields, buf: string)
    requires Chunked(f) && BodyMove(headers, limit, f, buf).Took?
    ensures var m := BodyMove(headers, limit, f, buf); m.n >= 2 && m.next.code == f.code
  {
  }

  /** A step that performs the move due at `offset` ends the run, or carries it on. */
  lemma {:induction false} StepEnds(headers: Headers, limit: nat, f0: Fields, buffer: string,
                 f: Fields, g: Fields, offset: nat, step: Step)
    requires Progress(Moves(headers, limit), Rank) && f.code == 0
    requires Reached(Moves(headers, limit), Rank, f0, buffer, f, offset)
    requires Performs(BodyMove(headers, limit, f, buffer[offset..]), f, g, offset, step)
    requires Chunked(f) && !step.Advance?
    ensures RunBody(headers, limit, f0, buffer)
         == if step.Wait? then Outcome(f, offset, false) else Outcome(g.(code := step.code), offset, true)
  {
    ReachedEnd(Moves(headers, limit), Rank, f0, buffer, f, offset);
  }

  lemma {:induction false} StepAdvances(headers: Headers, limit: nat, f0: Fields, buffer: string,
                     f: Fields, g: Fields, offset: nat, step: Step)
    requires Progress(Moves(headers, limit), Rank) && f.code == 0
    requires Fits(f, limit)
    requires Reached(Moves(headers, limit), Rank, f0, buffer, f, offset)
    requires Performs(BodyMove(headers, limit, f, buffer[offset..]), f, g, offset, step)
    requires Chunked(f) && step.Advance?
    ensures g.code == 0 && Fits(g, limit) && offset < step.offset <= |buffer|
    ensures Reached(Moves(headers, limit), Rank, f0, buffer, g, step.offset)
  {
    hide BodyMove, Fits;
    MoveFits(headers, limit, f, buffer[offset..]);
    ChunkedMoveTakes(headers, limit, f, buffer[offset..]);
    ReachedNext(Moves(headers, limit), Rank, f0, buffer, f, offset, g, step.offset - offset);
  }

  /** Without bytes no chunked move can be made. */
  lemma {:induction false} NothingLeft(headers: Headers, limit: nat, f0: Fields, buffer: string, f: Fields)
    requires Progress(Moves(headers, limit), Rank) && Chunked(f)
    requires Reached(Moves(headers, limit), Rank, f0, buffer, f, |buffer|)
    ensures RunBody(headers, limit, f0, buffer) == Outcome(f, |buffer|, false)
  {
    assert BodyMove(headers, limit, f, "").Stuck?;
    assert buffer[|buffer|..] == "";
  }

  /** Taking a body of known length byte by byte is taking what there is, up to the length. */
  lemma {:induction false} IdentityRun(headers: Headers, limit: nat, f: Fields, buf: string)
    requires f.state.Identity?
    ensures RunBody(headers, limit, f, buf)
         == var k := if |buf| < f.remaining then |buf| else f.remaining;
            Outcome(f.(body := f.body + buf[..k], remaining := f.remaining - k,
                       state := if 0 < k == f.remaining then Complete else Identity), k, false)
    decreases |buf|
  {
    if buf == "" || f.remaining <= 1 {
      IdentityEnds(headers, limit, f, buf);
    } else {
      var g := f.(body := f.body + buf[..1], remaining := f.remaining - 1);
      IdentityStep(headers, limit, f, buf);
      hide RunBody;
      IdentityRun(headers, limit, g, buf[1..]);
      var k := if |buf| < f.remaining then |buf| else f.remaining;
      FirstAndRest(f.body, buf, k);
    }
  }

  lemma {:induction false} FirstAndRest(body: string, buf: string, k: nat)
    requires 0 < k <= |buf|
    ensures body + buf[..1] + buf[1..][..k - 1] == body + buf[..k]
  {
    assert buf[..k] == buf[..1] + buf[1..][..k - 1];
  }

  lemma {:induction false} IdentityEnds(headers: Headers, limit: nat, f: Fields, buf: string)
    requires f.state.Identity? && (buf == "" || f.remaining <= 1)
    ensures RunBody(headers, limit, f, buf)
         == if buf == "" || f.remaining == 0 then Outcome(f, 0, false)
            else Outcome(f.(body := f.body + buf[..1], remaining := 0, state := Complete), 1, false)
    ensures f.body + buf[..0] == f.body
  {
    MovesProgress(headers, limit);
    if buf != "" && f.remaining == 1 {
      var g := f.(body := f.body + buf[..1], remaining := 0, state := Complete);
      RunTakes(Moves(headers, limit), Rank, f, buf, g, 1);
      assert Moves(headers, limit)(g, buf[1..]).Stuck?;
    }
  }

  lemma {:induction false} IdentityStep(headers: Headers, limit: nat, f: Fields, buf: string)
    requires f.state.Identity? && f.remaining > 1 && buf != ""
    ensures RunBody(headers, limit, f, buf)
         == var o := RunBody(headers, limit, f.(body := f.body + buf[..1], remaining := f.remaining - 1), buf[1..]);
            Outcome(o.s, 1 + o.consumed, o.failed)
  {
    MovesProgress(headers, limit);
  }
}
