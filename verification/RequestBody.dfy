/** src/Http/Parser/RequestBodyParser: the incremental body decoder. */
module RequestBody {
  import opened StringOps
  import opened Http
  import opened Incremental

  datatype BodyState = Uninitialized | Identity | ChunkedSize | ChunkedData | ChunkedCrlf | Complete

  /** Everything one call of parse reads and writes, apart from the buffer. */
  datatype Fields = Fields(state: BodyState, remaining: nat, chunkSize: nat, body: string, code: nat)

  // ---------- what one call computes ----------

  function Init(headers: Headers, f: Fields): Fields {
    if TRANSFER_ENCODING in headers then
      if headers[TRANSFER_ENCODING] == "chunked" then
        if CONTENT_LENGTH in headers then f.(code := BAD_REQUEST) else f.(state := ChunkedSize)
      else f.(code := NOT_IMPLEMENTED)
    else if CONTENT_LENGTH in headers then
      var (ok, n) := ParseSize(10, headers[CONTENT_LENGTH]);
      if !ok then f.(remaining := n, code := BAD_REQUEST)
      else f.(remaining := n, state := if n == 0 then Complete else Identity)
    else f.(state := Complete)
  }

  function SizeMove(limit: nat, f: Fields, buf: string): Move<Fields> {
    match Find(buf, CRLF, 0)
    case None => Stuck
    case Some(i) =>
      var (ok, size) := ParseSize(16, UpTo(buf[..i], ';'));
      var g := f.(chunkSize := size);
      if !ok then Failed(g.(code := BAD_REQUEST))
      else if |f.body| > limit || size > limit - |f.body| then Failed(g.(code := PAYLOAD_TOO_LARGE))
      else Took(g.(state := if size == 0 then ChunkedCrlf else ChunkedData), i + 2)
  }

  function DataMove(f: Fields, buf: string): Move<Fields> {
    if |buf| < f.chunkSize + 2 then Stuck
    else
      var g := f.(body := f.body + buf[..f.chunkSize]);
      if At(buf, CRLF, f.chunkSize) then Took(g.(state := ChunkedSize), f.chunkSize + 2)
      else Failed(g.(code := BAD_REQUEST))
  }

  /** The length of the trailer section: up to and including the first empty line. */
  function TrailerEnd(buf: string): (r: Option<nat>)
    ensures r.Some? ==> 2 <= r.value <= |buf|
    decreases |buf|
  {
    match Find(buf, CRLF, 0)
    case None => None
    case Some(i) =>
      if i == 0 then Some(2)
      else match TrailerEnd(buf[i + 2..]) case None => None case Some(e) => Some(i + 2 + e)
  }

  predicate Chunked(f: Fields) {
    f.state in {ChunkedSize, ChunkedData, ChunkedCrlf}
  }

  /** One move of the body decoder. A body of known length is taken byte by byte. */
  function BodyMove(headers: Headers, limit: nat, f: Fields, buf: string): Move<Fields> {
    match f.state
    case Uninitialized =>
      var g := Init(headers, f);
      if g.code != 0 then Failed(g) else Took(g, 0)
    case Identity =>
      if buf == "" || f.remaining == 0 then Stuck
      else
        Took(f.(body := f.body + buf[..1], remaining := f.remaining - 1,
                state := if f.remaining == 1 then Complete else Identity), 1)
    case ChunkedSize => SizeMove(limit, f, buf)
    case ChunkedData => DataMove(f, buf)
    case ChunkedCrlf =>
      (match TrailerEnd(buf) case None => Stuck case Some(e) => Took(f.(state := Complete), e))
    case Complete => Stuck
  }

  function Moves(headers: Headers, limit: nat): Mover<Fields> {
    (f: Fields, buf: string) => BodyMove(headers, limit, f, buf)
  }

  const Rank: Fields -> nat := (f: Fields) => if f.state.Uninitialized? then 1 else 0

  lemma {:induction false} MovesProgress(headers: Headers, limit: nat)
    ensures Progress(Moves(headers, limit), Rank)
  {
  }

  ghost function RunBody(headers: Headers, limit: nat, f: Fields, buf: string): (o: Outcome<Fields>)
    ensures o.consumed <= |buf|
  {
    MovesProgress(headers, limit);
    Run(Moves(headers, limit), Rank, f, buf)
  }

  /** RequestBodyParser::parse. `late` says that more than the chunk timeout passes between
      the entry of this very call and the turns of its loop. */
  ghost function Parse(headers: Headers, limit: nat, late: bool, f: Fields, buf: string): Outcome<Fields> {
    var g := if f.state.Uninitialized? then Init(headers, f) else f;
    if late && buf != "" && Chunked(g) && g.code == 0 then Outcome(g.(code := REQUEST_TIMEOUT), 0, true)
    else RunBody(headers, limit, f, buf)
  }

  // ---------- the body bound ----------

  /** The limits step has let the declared length through. */
  predicate Admitted(headers: Headers, limit: nat) {
    CONTENT_LENGTH in headers ==>
      ParseSize(10, headers[CONTENT_LENGTH]).0 && ParseSize(10, headers[CONTENT_LENGTH]).1 <= limit
  }

  function DeclaredLength(headers: Headers): nat
    requires CONTENT_LENGTH in headers
  {
    ParseSize(10, headers[CONTENT_LENGTH]).1
  }

  predicate ByLength(headers: Headers) {
    CONTENT_LENGTH in headers && TRANSFER_ENCODING !in headers
  }

  /** What every call keeps: the stored body, with what is promised to follow, fits the limit. */
  ghost predicate Bounded(headers: Headers, limit: nat, f: Fields) {
    && |f.body| <= limit
    && (f.state.Uninitialized? ==> f.body == "")
    && (f.state.ChunkedData? && f.code == 0 ==> |f.body| + f.chunkSize <= limit)
    && (f.state.Identity? ==>
          ByLength(headers) && f.remaining > 0 && |f.body| + f.remaining == DeclaredLength(headers))
    && (f.state.Complete? && ByLength(headers) ==> |f.body| == DeclaredLength(headers))
    && (f.state in {ChunkedSize, ChunkedData, ChunkedCrlf} ==> !ByLength(headers))
  }

  /** Every move, also a failing one, stays within the limit. */
  lemma {:induction false} MoveKeepsBound(headers: Headers, limit: nat, f: Fields, buf: string)
    requires Admitted(headers, limit) && f.code == 0 && Bounded(headers, limit, f)
    requires !BodyMove(headers, limit, f, buf).Stuck?
    ensures Bounded(headers, limit, BodyMove(headers, limit, f, buf).next)
  {
  }

  /** Over all runs of the body phase, cut in any way and ended in any way. */
  lemma {:induction false} BodyBoundOverRuns(headers: Headers, limit: nat, c: Conn<Fields>, pieces: seq<string>)
    requires Admitted(headers, limit) && Bounded(headers, limit, c.s) && c.s.code == 0 && !c.failed
    ensures Progress(Moves(headers, limit), Rank)
    ensures Bounded(headers, limit, ReceiveAll(Moves(headers, limit), Rank, c, pieces).s)
  {
    MovesProgress(headers, limit);
    var fin := (f: Fields) => Bounded(headers, limit, f);
    var inv := (f: Fields) => Bounded(headers, limit, f) && f.code == 0;
    assert Keeps(Moves(headers, limit), inv, fin) by {
      forall f, b | inv(f) && !BodyMove(headers, limit, f, b).Stuck?
        ensures Bounded(headers, limit, BodyMove(headers, limit, f, b).next)
      {
        MoveKeepsBound(headers, limit, f, b);
      }
    }
    ReceiveAllKeeps(Moves(headers, limit), Rank, inv, fin, c, pieces);
  }

  // ---------- independence of segmentation ----------

  lemma {:induction false} TrailerEndStable(buf: string, more: string)
    requires TrailerEnd(buf).Some?
    ensures TrailerEnd(buf + more) == TrailerEnd(buf)
    decreases |buf|
  {
    hide Find;
    FindStable(buf, more, CRLF, 0);
    var i := Find(buf, CRLF, 0).value;
    if i != 0 {
      TrailerEndStable(buf[i + 2..], more);
      assert (buf + more)[i + 2..] == buf[i + 2..] + more;
    }
  }

  /** A move that can be made is not changed by bytes that arrive later. */
  lemma {:induction false} MoveStable(headers: Headers, limit: nat, f: Fields, buf: string, more: string)
    requires !BodyMove(headers, limit, f, buf).Stuck?
    ensures BodyMove(headers, limit, f, buf + more) == BodyMove(headers, limit, f, buf)
  {
    match f.state
    case ChunkedSize =>
      FindStable(buf, more, CRLF, 0);
      var i := Find(buf, CRLF, 0).value;
      assert (buf + more)[..i] == buf[..i];
    case ChunkedData =>
      var k := f.chunkSize;
      assert (buf + more)[..k] == buf[..k] && (buf + more)[k..k + 2] == buf[k..k + 2];
    case ChunkedCrlf =>
      TrailerEndStable(buf, more);
    case Identity =>
      assert (buf + more)[..1] == buf[..1];
    case _ =>
  }

  lemma {:induction false} MovesStable(headers: Headers, limit: nat)
    ensures Stable(Moves(headers, limit))
  {
    var move := Moves(headers, limit);
    forall f, a, b ensures Unmoved(move, f, a, b) {
      if !move(f, a).Stuck? { MoveStable(headers, limit, f, a, b); }
    }
  }

  /** Section 6.1 and 7.1 of RFC 9112 ask only for the bytes: any split of a body, in either
      framing, ends with the same state, body, error code and leftover. */
  lemma {:induction false} BodySegmentation(headers: Headers, limit: nat, c: Conn<Fields>, p: seq<string>, q: seq<string>)
    requires !c.failed && p != [] && q != [] && Concat(p) == Concat(q)
    ensures Progress(Moves(headers, limit), Rank)
    ensures SameEnd(ReceiveAll(Moves(headers, limit), Rank, c, p), ReceiveAll(Moves(headers, limit), Rank, c, q))
  {
    MovesProgress(headers, limit);
    MovesStable(headers, limit);
    SegmentationIndependent(Moves(headers, limit), Rank, c, p);
    SegmentationIndependent(Moves(headers, limit), Rank, c, q);
  }
}
