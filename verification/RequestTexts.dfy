/** Requests as texts, written out character by character: what the parser makes of them, and with which
    status it refuses those it does not take. */
module RequestTexts {
  import opened StringOps
  import opened Letters
  import opened Http
  import opened Incremental
  import opened RequestHead
  import opened RequestBody
  import opened ChunkCoding
  import opened RequestMachine
  import opened RequestAccepts

  /** Header fields, each on its line. */
  function FieldLines(fs: seq<Field>): string {
    if fs == [] then ""
    else fs[0].name + ":" + fs[0].pre + fs[0].value + fs[0].post + "\r\n" + FieldLines(fs[1..])
  }

  /** No two names that differ in letter case at most. */
  ghost predicate NamesDiffer(fs: seq<Field>) {
    forall i, j | 0 <= i < j < |fs| :: !Alike(fs[i].name, fs[j].name)
  }

  ghost predicate NameGiven(fs: seq<Field>, name: string) {
    exists i | 0 <= i < |fs| :: Alike(fs[i].name, name)
  }

  lemma {:induction false} FieldLinesAre(fs: seq<Field>)
    requires fs != []
    ensures FieldLines(fs) == PrintFields(fs) + "\r\n"
  {
    var f := fs[0];
    assert PrintField(f) == f.name + ":" + f.pre + f.value + f.post;
    if |fs| == 1 {
      assert FieldLines(fs[1..]) == "";
    } else {
      FieldLinesAre(fs[1..]);
      Associates(PrintField(f) + "\r\n", PrintFields(fs[1..]), "\r\n");
    }
  }

  lemma {:induction false} FieldsFit(fs: seq<Field>, headers: Headers)
    requires AllGood(fs) && NamesDiffer(fs) && forall i | 0 <= i < |fs| :: ToLower(fs[i].name) !in headers
    ensures GoodFields(fs, headers)
    decreases |fs|
  {
    hide ToLower, Alike, GoodField;
    if fs != [] {
      var tail, more := fs[1..], headers[ToLower(fs[0].name) := fs[0].value];
      forall i, j | 0 <= i < j < |tail| ensures !Alike(tail[i].name, tail[j].name) {
        assert tail[i] == fs[i + 1] && tail[j] == fs[j + 1];
      }
      forall i | 0 <= i < |tail| ensures ToLower(tail[i].name) !in more {
        assert tail[i] == fs[i + 1];
        NamesMeet(fs[0].name, fs[i + 1].name);
      }
      FieldsFit(tail, more);
    }
  }

  /** The headers are the fields, by their names in lower case. */
  lemma {:induction false} MeaningIs(fs: seq<Field>, headers: Headers)
    requires GoodFields(fs, headers)
    ensures forall i | 0 <= i < |fs| ::
              ToLower(fs[i].name) in Meaning(fs, headers) && Meaning(fs, headers)[ToLower(fs[i].name)] == fs[i].value
    ensures forall key | key in headers :: key in Meaning(fs, headers) && Meaning(fs, headers)[key] == headers[key]
    ensures forall key | key in Meaning(fs, headers) && key !in headers :: exists i | 0 <= i < |fs| :: ToLower(fs[i].name) == key
    decreases |fs|
  {
    hide ToLower, GoodField;
    if fs != [] {
      var k := ToLower(fs[0].name);
      var tail, more := fs[1..], headers[k := fs[0].value];
      MeaningIs(tail, more);
      var m := Meaning(fs, headers);
      assert m == Meaning(tail, more) && k in more;
      forall i | 0 <= i < |fs| ensures ToLower(fs[i].name) in m && m[ToLower(fs[i].name)] == fs[i].value {
        if i > 0 { assert tail[i - 1] == fs[i]; }
      }
      forall key | key in m && key !in headers ensures exists i | 0 <= i < |fs| :: ToLower(fs[i].name) == key {
        if key != k {
          assert key !in more;
          var i :| 0 <= i < |tail| && ToLower(tail[i].name) == key;
          assert fs[i + 1] == tail[i];
        }
      }
    }
  }

  /** Whether a header is there depends on the spelling of no name but on its letters. */
  lemma {:induction false} HeaderIsThere(fs: seq<Field>, spelled: string, key: string)
    requires GoodFields(fs, map[]) && ToLower(spelled) == key
    ensures key in Meaning(fs, map[]) <==> NameGiven(fs, spelled)
    ensures forall i | 0 <= i < |fs| && Alike(fs[i].name, spelled) ::
              key in Meaning(fs, map[]) && Meaning(fs, map[])[key] == fs[i].value
  {
    hide ToLower, Alike, GoodFields, Meaning;
    MeaningIs(fs, map[]);
    forall i | 0 <= i < |fs| ensures Alike(fs[i].name, spelled) <==> ToLower(fs[i].name) == key {
      NamesMeet(fs[i].name, spelled);
    }
  }

  lemma {:induction false} TheTwoNames()
    ensures ToLower("Content-Length") == CONTENT_LENGTH && ToLower("Transfer-Encoding") == TRANSFER_ENCODING
  {
    assert "Content-Length"[0] == 'C' && "Content-Length"[8] == 'L';
  }

  // ---------- chunks ----------

  /** No line ends inside. */
  predicate OneLine(s: string) {
    forall j | 0 <= j < |s| - 1 :: !(s[j] == '\r' && s[j + 1] == '\n')
  }

  lemma {:induction false} OneLineNoCrlf(s: string)
    requires OneLine(s)
    ensures NoCrlf(s)
  {
    forall j: nat ensures !At(s, CRLF, j) {
      if j + 2 <= |s| {
        assert s[j..j + 2][0] == s[j] && s[j..j + 2][1] == s[j + 1];
      }
    }
  }

  /** A size in hexadecimal, in any case and with any zeros before it, and an extension behind it. */
  ghost predicate SizeText(size: string, ext: string, n: nat) {
    && (exists k: nat :: Alike(size, Zeros(k) + Hex(n)))
    && (ext == "" || ext[0] == ';') && OneLine(size + ext)
  }

  function ChunkLines(cs: seq<Chunk>): string {
    if cs == [] then "" else cs[0].size + cs[0].ext + "\r\n" + cs[0].data + "\r\n" + ChunkLines(cs[1..])
  }

  function TrailerLines(ts: seq<string>): string {
    if ts == [] then "" else ts[0] + "\r\n" + TrailerLines(ts[1..])
  }

  /** A chunked body: chunks, the size line of the last chunk, trailers, an empty line. */
  function ChunkedText(cs: seq<Chunk>, end: Ending): string {
    ChunkLines(cs) + (end.size + end.ext + "\r\n" + TrailerLines(end.trailers) + "\r\n")
  }

  ghost predicate GoodChunks(cs: seq<Chunk>, end: Ending) {
    && (forall i | 0 <= i < |cs| :: cs[i].data != "" && SizeText(cs[i].size, cs[i].ext, |cs[i].data|))
    && SizeText(end.size, end.ext, 0)
    && (forall i | 0 <= i < |end.trailers| :: end.trailers[i] != "" && OneLine(end.trailers[i]))
  }

  lemma {:induction false} SizeTextFits(size: string, ext: string, n: nat)
    requires SizeText(size, ext, n)
    ensures SizeLine(size, ext, n)
  {
    hide Alike, Digits, Value, Numeral;
    var k: nat :| Alike(size, Zeros(k) + Hex(n));
    NumeralWorth(16, size, k, n);
    OneLineNoCrlf(size + ext);
  }

  lemma {:induction false} GoodChunksFit(cs: seq<Chunk>, end: Ending)
    requires GoodChunks(cs, end)
    ensures WellFormed(cs, end)
  {
    hide SizeText, SizeLine, OneLine, NoCrlf;
    forall i | 0 <= i < |cs| ensures SizeLine(cs[i].size, cs[i].ext, |cs[i].data|) {
      SizeTextFits(cs[i].size, cs[i].ext, |cs[i].data|);
    }
    SizeTextFits(end.size, end.ext, 0);
    forall i | 0 <= i < |end.trailers| ensures NoCrlf(end.trailers[i]) {
      OneLineNoCrlf(end.trailers[i]);
    }
  }

  lemma {:induction false} TrailerLinesAre(ts: seq<string>)
    ensures TrailerLines(ts) + "\r\n" == EncodeTrailers(ts)
  {
    if ts != [] {
      TrailerLinesAre(ts[1..]);
      Associates(ts[0] + "\r\n", TrailerLines(ts[1..]), "\r\n");
    }
  }

  lemma {:induction false} ChunkedTextIs(cs: seq<Chunk>, end: Ending)
    ensures ChunkedText(cs, end) == Encode(cs, end)
    decreases |cs|
  {
    var last := end.size + end.ext + "\r\n" + TrailerLines(end.trailers) + "\r\n";
    if cs == [] {
      TrailerLinesAre(end.trailers);
      Associates(end.size + end.ext + "\r\n", TrailerLines(end.trailers), "\r\n");
      assert "" + last == last;
    } else {
      ChunkedTextIs(cs[1..], end);
      Associates(ChunkText(cs[0]), ChunkLines(cs[1..]), last);
    }
  }

  // ---------- whole requests ----------

  /** A body, and the one field that announces it. */
  ghost predicate Framed(fs: seq<Field>, b: Body) {
    match b
    case NoBody => !NameGiven(fs, "Content-Length") && !NameGiven(fs, "Transfer-Encoding")
    case Sized(data) =>
      && !NameGiven(fs, "Transfer-Encoding")
      && exists i, k: nat :: 0 <= i < |fs| && Alike(fs[i].name, "Content-Length") && fs[i].value == Zeros(k) + Dec(|data|)
    case InChunks(cs, end) =>
      && !NameGiven(fs, "Content-Length") && GoodChunks(cs, end)
      && exists i | 0 <= i < |fs| :: Alike(fs[i].name, "Transfer-Encoding") && fs[i].value == "chunked"
  }

  function BodyLines(b: Body): string {
    match b
    case NoBody => ""
    case Sized(data) => data
    case InChunks(cs, end) => ChunkedText(cs, end)
  }

  lemma {:induction false} FramedAnnounces(fs: seq<Field>, b: Body)
    requires GoodFields(fs, map[]) && Framed(fs, b)
    ensures Announces(Meaning(fs, map[]), b) && BodyText(b) == BodyLines(b)
  {
    hide Alike, GoodFields, Meaning, Digits, Value, GoodChunks, WellFormed, Numeral, ToLower, NameGiven;
    TheTwoNames();
    HeaderIsThere(fs, "Content-Length", CONTENT_LENGTH);
    HeaderIsThere(fs, "Transfer-Encoding", TRANSFER_ENCODING);
    match b
    case NoBody =>
    case Sized(data) =>
      var i, k: nat :| 0 <= i < |fs| && Alike(fs[i].name, "Content-Length") && fs[i].value == Zeros(k) + Dec(|data|);
      AlikeSame(fs[i].value);
      NumeralWorth(10, fs[i].value, k, |data|);
    case InChunks(cs, end) =>
      GoodChunksFit(cs, end);
      ChunkedTextIs(cs, end);
  }

  /** The request is given back: its parts, its body, and its fields by their names in lower case. */
  ghost predicate GivenBack(r: Request, name: string, path: string, version: string, fs: seq<Field>, body: string) {
    && r.phase == DonePhase && r.code == 0
    && r.name == name && r.path == path && r.version == version && r.f.body == body
    && (forall i | 0 <= i < |fs| :: ToLower(fs[i].name) in r.headers && r.headers[ToLower(fs[i].name)] == fs[i].value)
    && (forall key | key in r.headers :: exists i | 0 <= i < |fs| :: ToLower(fs[i].name) == key)
  }

  lemma {:induction false} RequestTextIs(m: Message)
    requires m.fields != [] && BodyText(m.body) == BodyLines(m.body)
    ensures m.name + " " + m.path + " " + m.version + "\r\n" + FieldLines(m.fields) + "\r\n" + BodyLines(m.body) == Print(m)
  {
    hide FieldLines, PrintFields, BodyLines, BodyText;
    FieldLinesAre(m.fields);
    var line := m.name + " " + m.path + " " + m.version + "\r\n";
    Associates(line, PrintFields(m.fields), "\r\n");
    Associates(line + PrintFields(m.fields), "\r\n", "\r\n");
  }

  /** A request written out: request line, fields in any order and spelling of their names, and a body that
      one of them announces, in decimal or in chunks with hexadecimal sizes. It is read exactly, and what
      follows it stays in the buffer. */
  lemma {:induction false} WrittenRequestComesBack(
      lims: Limits, limit: nat, name: string, path: string, version: string, fs: seq<Field>, body: Body, rest: string)
    requires name != "" && Plain(name) && ' ' !in name && Plain(path) && ' ' !in path && '?' !in path
    requires version == "HTTP/1.1" || version == "HTTP/1.0"
    requires fs != [] && AllGood(fs) && NamesDiffer(fs) && Framed(fs, body)
    requires |FieldLines(fs)| + 2 <= lims.headerSize && |BodyData(body)| <= lims.bodySize(path) <= SIZE_MAX
    ensures var text := name + " " + path + " " + version + "\r\n" + FieldLines(fs) + "\r\n" + BodyLines(body);
            var o := RunRequest(lims, Start(limit), text + rest);
            !o.failed && o.consumed == |text| && GivenBack(o.s, name, path, version, fs, BodyData(body))
  {
    hide FieldLines, PrintFields, BodyLines, BodyText, Print, Meaning, GoodFields, AllGood, NamesDiffer, Framed, BodyData,
      Announces, RunRequest, ToLower;
    FieldsFit(fs, map[]);
    FramedAnnounces(fs, body);
    FieldLinesAre(fs);
    var m := Message(name, path, version, fs, body);
    RequestTextIs(m);
    RequestRoundTrip(lims, m, limit, rest);
    MeaningIs(fs, map[]);
  }
}
