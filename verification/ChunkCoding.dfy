/** The chunked transfer coding of section 7.1 of RFC 9112 as a grammar, and the decoder
    against it: it accepts exactly the encodings. */
module ChunkCoding {
  import opened StringOps
  import opened Http
  import opened Incremental
  import opened RequestBody

  datatype Chunk = Chunk(size: string, ext: string, data: string)

  /** What stands between the last chunk and the end: its size line and the trailer lines. */
  datatype Ending = Ending(size: string, ext: string, trailers: seq<string>)

  /** A size line: any hex spelling of `n`, then nothing or an extension. */
  ghost predicate SizeLine(size: string, ext: string, n: nat) {
    && size != [] && Digits(16, size) && Value(16, size) == n
    && (ext == "" || ext[0] == ';') && NoCrlf(size + ext)
  }

  ghost predicate WellFormed(chunks: seq<Chunk>, end: Ending) {
    && (forall i | 0 <= i < |chunks| ::
          chunks[i].data != "" && SizeLine(chunks[i].size, chunks[i].ext, |chunks[i].data|))
    && SizeLine(end.size, end.ext, 0)
    && (forall i | 0 <= i < |end.trailers| :: end.trailers[i] != "" && NoCrlf(end.trailers[i]))
  }

  function EncodeTrailers(ts: seq<string>): string {
    if ts == [] then CRLF else ts[0] + CRLF + EncodeTrailers(ts[1..])
  }

  function ChunkText(c: Chunk): string {
    c.size + c.ext + CRLF + c.data + CRLF
  }

  function Encode(chunks: seq<Chunk>, end: Ending): string {
    if chunks == [] then end.size + end.ext + CRLF + EncodeTrailers(end.trailers)
    else ChunkText(chunks[0]) + Encode(chunks[1..], end)
  }

  function Payload(chunks: seq<Chunk>): string {
    if chunks == [] then "" else chunks[0].data + Payload(chunks[1..])
  }

  // ---------- encodings are accepted ----------

  lemma {:induction false} SizeMoveOnLine(limit: nat, f: Fields, size: string, ext: string, n: nat, rest: string)
    requires SizeLine(size, ext, n) && limit <= SIZE_MAX && |f.body| + n <= limit
    ensures SizeMove(limit, f, size + ext + CRLF + rest)
         == Took(f.(chunkSize := n, state := if n == 0 then ChunkedCrlf else ChunkedData), |size + ext| + 2)
  {
    var line := size + ext;
    var buf := line + CRLF + rest;
    FindEndOfLine(line, rest);
    assert buf[..|line|] == line;
    forall i | 0 <= i < |size| ensures size[i] != ';' {
      assert Digit(16, size[i]).Some?;
    }
    UpToIs(line, ';', size);
    ParseSizeExact(16, size);
  }

  lemma {:induction false} TrailersEnd(ts: seq<string>, rest: string)
    requires forall i | 0 <= i < |ts| :: ts[i] != "" && NoCrlf(ts[i])
    ensures TrailerEnd(EncodeTrailers(ts) + rest) == Some(|EncodeTrailers(ts)|)
    decreases |ts|
  {
    hide Find, NoCrlf;
    var buf := EncodeTrailers(ts) + rest;
    if ts == [] {
      NoLfNoCrlf("");
      FindEndOfLine("", rest);
      assert "" + CRLF + rest == buf;
    } else {
      var tail := EncodeTrailers(ts[1..]) + rest;
      FindEndOfLine(ts[0], tail);
      assert ts[0] + CRLF + tail == buf;
      assert buf[|ts[0]| + 2..] == tail;
      TrailersEnd(ts[1..], rest);
    }
  }

  /** Two moves in a row, from states and buffers given explicitly. */
  lemma {:induction false} BodyTakes(headers: Headers, limit: nat, f: Fields, buf: string, g: Fields, n: nat, rest: string)
    requires BodyMove(headers, limit, f, buf) == Took(g, n) && n <= |buf| && buf[n..] == rest
    ensures RunBody(headers, limit, f, buf)
         == var o := RunBody(headers, limit, g, rest); Outcome(o.s, n + o.consumed, o.failed)
  {
    MovesProgress(headers, limit);
    RunTakes(Moves(headers, limit), Rank, f, buf, g, n);
  }

  lemma {:induction false} CompleteStops(headers: Headers, limit: nat, f: Fields, buf: string)
    requires f.state.Complete?
    ensures RunBody(headers, limit, f, buf) == Outcome(f, 0, false)
  {
  }

  lemma {:induction false} RunEnding(headers: Headers, limit: nat, f: Fields, end: Ending, rest: string)
    requires f.state.ChunkedSize? && WellFormed([], end) && limit <= SIZE_MAX && |f.body| <= limit
    ensures RunBody(headers, limit, f, Encode([], end) + rest)
         == Outcome(f.(state := Complete, chunkSize := 0), |Encode([], end)|, false)
  {
    hide RunBody, SizeMove, SizeLine, TrailerEnd, EncodeTrailers;
    var tail := EncodeTrailers(end.trailers);
    var g := f.(chunkSize := 0, state := ChunkedCrlf);
    assert Encode([], end) + rest == end.size + end.ext + CRLF + (tail + rest);
    SizeMoveOnLine(limit, f, end.size, end.ext, 0, tail + rest);
    BodyTakes(headers, limit, f, Encode([], end) + rest, g, |end.size + end.ext| + 2, tail + rest);
    TrailersEnd(end.trailers, rest);
    BodyTakes(headers, limit, g, tail + rest, g.(state := Complete), |tail|, rest);
    CompleteStops(headers, limit, g.(state := Complete), rest);
  }

  lemma {:induction false} RunChunk(headers: Headers, limit: nat, f: Fields, c: Chunk, more: string)
    requires f.state.ChunkedSize? && c.data != "" && SizeLine(c.size, c.ext, |c.data|)
    requires limit <= SIZE_MAX && |f.body| + |c.data| <= limit
    ensures RunBody(headers, limit, f, ChunkText(c) + more)
         == var o := RunBody(headers, limit, f.(chunkSize := |c.data|, body := f.body + c.data), more);
            Outcome(o.s, |ChunkText(c)| + o.consumed, o.failed)
  {
    hide RunBody, SizeLine, SizeMove, DataMove;
    var n, buf1 := |c.data|, c.data + CRLF + more;
    var g := f.(chunkSize := n, state := ChunkedData);
    assert ChunkText(c) + more == c.size + c.ext + CRLF + buf1;
    SizeMoveOnLine(limit, f, c.size, c.ext, n, buf1);
    BodyTakes(headers, limit, f, ChunkText(c) + more, g, |c.size + c.ext| + 2, buf1);
    DataMoveOn(g, c.data, more);
    BodyTakes(headers, limit, g, buf1, g.(body := f.body + c.data, state := ChunkedSize), n + 2, more);
  }

  lemma {:induction false} DataMoveOn(f: Fields, data: string, more: string)
    requires f.chunkSize == |data|
    ensures var buf := data + CRLF + more;
            DataMove(f, buf) == Took(f.(body := f.body + data, state := ChunkedSize), |data| + 2) && buf[|data| + 2..] == more
  {
    var buf, n := data + CRLF + more, |data|;
    assert buf[..n] == data && buf[n..n + 2] == CRLF;
  }

  /** Decoding an encoding yields the payload, completes, and takes exactly the encoding. */
  lemma {:induction false} DecodeEncode(
      headers: Headers, limit: nat, f: Fields, chunks: seq<Chunk>, end: Ending, rest: string)
    requires f.state.ChunkedSize? && WellFormed(chunks, end)
    requires limit <= SIZE_MAX && |f.body| + |Payload(chunks)| <= limit
    ensures var o := RunBody(headers, limit, f, Encode(chunks, end) + rest);
            && !o.failed && o.consumed == |Encode(chunks, end)|
            && o.s.state == Complete && o.s.body == f.body + Payload(chunks) && o.s.code == f.code
    decreases |chunks|
  {
    hide RunBody, SizeLine, ChunkText;
    if chunks == [] {
      RunEnding(headers, limit, f, end, rest);
      assert f.body + "" == f.body;
    } else {
      var c, tail := chunks[0], Encode(chunks[1..], end);
      var g := f.(chunkSize := |c.data|, body := f.body + c.data);
      RestWellFormed(chunks, end);
      RunChunk(headers, limit, f, c, tail + rest);
      DecodeEncode(headers, limit, g, chunks[1..], end, rest);
      Associates(ChunkText(c), tail, rest);
      Associates(f.body, c.data, Payload(chunks[1..]));
    }
  }

  lemma {:induction false} RestWellFormed(chunks: seq<Chunk>, end: Ending)
    requires WellFormed(chunks, end) && chunks != []
    ensures WellFormed(chunks[1..], end)
    ensures chunks[0].data != "" && SizeLine(chunks[0].size, chunks[0].ext, |chunks[0].data|)
  {
    hide SizeLine;
  }

  lemma {:induction false} MoreWellFormed(c: Chunk, chunks: seq<Chunk>, end: Ending)
    requires WellFormed(chunks, end) && c.data != "" && SizeLine(c.size, c.ext, |c.data|)
    ensures WellFormed([c] + chunks, end)
    ensures Encode([c] + chunks, end) == ChunkText(c) + Encode(chunks, end)
    ensures Payload([c] + chunks) == c.data + Payload(chunks)
  {
    hide SizeLine, ChunkText;
    assert ([c] + chunks)[1..] == chunks;
  }

  lemma {:induction false} TakeBoth(buf: string, k: nat, m: nat)
    requires k + m <= |buf|
    ensures buf[..k + m] == buf[..k] + buf[k..][..m]
  {
  }

  // ---------- only encodings are accepted ----------

  lemma {:induction false} LineBeforeHit(buf: string, i: nat)
    requires Find(buf, CRLF, 0) == Some(i)
    ensures NoCrlf(buf[..i]) && buf == buf[..i] + CRLF + buf[i + 2..]
  {
    FindFirst(buf, CRLF, 0);
    assert buf == buf[..i] + buf[i..i + 2] + buf[i + 2..];
    forall j: nat ensures !At(buf[..i], CRLF, j) {
      if j + 2 <= i {
        assert buf[..i][j..j + 2] == buf[j..j + 2];
        assert !At(buf, CRLF, j);
      }
    }
  }

  lemma {:induction false} SizeMoveInverse(limit: nat, f: Fields, buf: string)
      returns (size: string, ext: string, n: nat)
    requires SizeMove(limit, f, buf).Took?
    ensures SizeLine(size, ext, n) && |f.body| + n <= limit
    ensures size + ext + CRLF <= buf
    ensures SizeMove(limit, f, buf)
         == Took(f.(chunkSize := n, state := if n == 0 then ChunkedCrlf else ChunkedData), |size + ext| + 2)
  {
    var i := Find(buf, CRLF, 0).value;
    LineBeforeHit(buf, i);
    var line := buf[..i];
    size := UpTo(line, ';');
    ext := line[|size|..];
    n := ParseSize(16, size).1;
    assert size + ext == line;
    ParseSizeExact(16, size);
  }

  lemma {:induction false} TrailersInverse(buf: string) returns (ts: seq<string>)
    requires TrailerEnd(buf).Some?
    ensures forall i | 0 <= i < |ts| :: ts[i] != "" && NoCrlf(ts[i])
    ensures buf[..TrailerEnd(buf).value] == EncodeTrailers(ts)
    decreases |buf|
  {
    var i := Find(buf, CRLF, 0).value;
    LineBeforeHit(buf, i);
    if i == 0 {
      ts := [];
    } else {
      var tail := buf[i + 2..];
      var more := TrailersInverse(tail);
      ts := [buf[..i]] + more;
      var e := TrailerEnd(tail).value;
      assert buf[..i + 2 + e] == buf[..i] + CRLF + tail[..e];
    }
  }

  ghost predicate Completes(headers: Headers, limit: nat, f: Fields, buf: string) {
    var o := RunBody(headers, limit, f, buf); !o.failed && o.s.state.Complete?
  }

  lemma {:induction false} EndingInverse(headers: Headers, limit: nat, f: Fields, buf: string, size: string, ext: string)
      returns (end: Ending)
    requires SizeLine(size, ext, 0) && size + ext + CRLF <= buf && f.state.ChunkedSize?
    requires SizeMove(limit, f, buf) == Took(f.(chunkSize := 0, state := ChunkedCrlf), |size + ext| + 2)
    requires Completes(headers, limit, f, buf)
    ensures WellFormed([], end)
    ensures var o := RunBody(headers, limit, f, buf);
            buf[..o.consumed] == Encode([], end) && o.s.body == f.body
  {
    var k, g := |size + ext| + 2, f.(chunkSize := 0, state := ChunkedCrlf);
    var buf1 := buf[k..];
    BodyTakes(headers, limit, f, buf, g, k, buf1);
    var e := TrailerEnd(buf1).value;
    var ts := TrailersInverse(buf1);
    var h := g.(state := Complete);
    BodyTakes(headers, limit, g, buf1, h, e, buf1[e..]);
    CompleteStops(headers, limit, h, buf1[e..]);
    end := Ending(size, ext, ts);
    assert buf[..k + e] == (size + ext + CRLF) + buf1[..e];
  }

  /** A run that completes inside a chunk has its data and the CR LF behind. */
  lemma {:induction false} DataMoveMade(headers: Headers, limit: nat, f: Fields, buf: string)
    requires f.state.ChunkedData? && Completes(headers, limit, f, buf)
    ensures var n := f.chunkSize;
            n + 2 <= |buf| && buf[n..n + 2] == CRLF
            && DataMove(f, buf) == Took(f.(body := f.body + buf[..n], state := ChunkedSize), n + 2)
  {
    MovesProgress(headers, limit);
  }

  lemma {:induction false} ChunkRead(c: Chunk, buf: string)
    requires var k, n := |c.size + c.ext| + 2, |c.data|;
             && k + n + 2 <= |buf| && buf[..k] == c.size + c.ext + CRLF
             && buf[k..][..n] == c.data && buf[k..][n..n + 2] == CRLF
    ensures ChunkText(c) <= buf && buf[|c.size + c.ext| + 2..][|c.data| + 2..] == buf[|ChunkText(c)|..]
  {
    var k, n := |c.size + c.ext| + 2, |c.data|;
    assert ChunkText(c) == buf[..k] + buf[k..][..n] + buf[k..][n..n + 2] == buf[..k + n + 2];
  }

  lemma {:induction false} ChunkInverse(
      headers: Headers, limit: nat, f: Fields, buf: string, size: string, ext: string, n: nat)
      returns (c: Chunk)
    requires SizeLine(size, ext, n) && size + ext + CRLF <= buf && n > 0 && f.state.ChunkedSize?
    requires SizeMove(limit, f, buf) == Took(f.(chunkSize := n, state := ChunkedData), |size + ext| + 2)
    requires Completes(headers, limit, f, buf)
    ensures c.size == size && c.ext == ext && |c.data| == n && ChunkText(c) <= buf
    ensures var o := RunBody(headers, limit,
                       f.(chunkSize := n, state := ChunkedSize, body := f.body + c.data), buf[|ChunkText(c)|..]);
            RunBody(headers, limit, f, buf) == Outcome(o.s, |ChunkText(c)| + o.consumed, o.failed)
  {
    hide RunBody, SizeLine, SizeMove, DataMove, ChunkText;
    var k, g := |size + ext| + 2, f.(chunkSize := n, state := ChunkedData);
    var buf1 := buf[k..];
    BodyTakes(headers, limit, f, buf, g, k, buf1);
    DataMoveMade(headers, limit, g, buf1);
    c := Chunk(size, ext, buf1[..n]);
    ChunkRead(c, buf);
    BodyTakes(headers, limit, g, buf1, g.(state := ChunkedSize, body := f.body + c.data), n + 2, buf1[n + 2..]);
  }

  /** A run that completes from a size line has read it. */
  lemma {:induction false} SizeMoveMade(headers: Headers, limit: nat, f: Fields, buf: string)
    requires f.state.ChunkedSize? && Completes(headers, limit, f, buf)
    ensures SizeMove(limit, f, buf).Took?
  {
    hide SizeMove;
    MovesProgress(headers, limit);
  }

  lemma {:induction false} NoPayload()
    ensures Payload([]) == ""
  {
  }

  lemma {:induction false} ChunkHasText(c: Chunk)
    ensures |ChunkText(c)| >= 4
  {
  }

  /** Whatever the decoder completes on is an encoding, and the body grew by its payload. */
  lemma {:induction false} CompletedIsEncoding(headers: Headers, limit: nat, f: Fields, buf: string)
      returns (chunks: seq<Chunk>, end: Ending)
    requires f.state.ChunkedSize? && Completes(headers, limit, f, buf)
    ensures WellFormed(chunks, end)
    ensures var o := RunBody(headers, limit, f, buf);
            buf[..o.consumed] == Encode(chunks, end) && o.s.body == f.body + Payload(chunks)
    decreases |buf|
  {
    hide RunBody, SizeLine, SizeMove, WellFormed, Encode, Payload;
    SizeMoveMade(headers, limit, f, buf);
    var size, ext, n := SizeMoveInverse(limit, f, buf);
    if n == 0 {
      end := EndingInverse(headers, limit, f, buf, size, ext);
      chunks := [];
      assert f.body + Payload([]) == f.body by { NoPayload(); }
    } else {
      var c := ChunkInverse(headers, limit, f, buf, size, ext, n);
      var k := |ChunkText(c)|;
      var g := f.(chunkSize := n, state := ChunkedSize, body := f.body + c.data);
      ChunkHasText(c);
      var more;
      more, end := CompletedIsEncoding(headers, limit, g, buf[k..]);
      chunks := [c] + more;
      MoreWellFormed(c, more, end);
      TakeBoth(buf, k, RunBody(headers, limit, g, buf[k..]).consumed);
      Associates(f.body, c.data, Payload(more));
    }
  }
}
