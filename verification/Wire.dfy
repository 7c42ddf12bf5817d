/** The grammar of the accepted byte streams, stated apart from the reading order of the parser, and the
  * theorem that the parser accepts exactly that grammar (http/parser.go). */
module Wire {
  import opened Text
  import opened Blanks
  import opened HttpText
  import opened Percent
  import opened Rules
  import opened Scanner
  import opened Http
  import opened FramingRules
  import opened Forms

  const CRLF: Bytes := "\r\n"

  datatype Chunk = Chunk(size: SizeForm, data: Bytes)

  datatype WireBody =
    | Empty
    | Sized(data: Bytes)
    | Chunks(chunks: seq<Chunk>, last: SizeForm, trailers: seq<FieldForm>)

  /** A request as it is written: the forms of its lines, and its body. */
  datatype WireRequest = WireRequest(line: Triple, fields: seq<FieldForm>, body: WireBody)

  // ---- Bytes of a wire form. ----

  function FieldBytes(fs: seq<FieldForm>): Bytes {
    if fs == [] then CRLF else FieldText(fs[0]) + CRLF + FieldBytes(fs[1..])
  }

  function ChunkBytes(chunks: seq<Chunk>, tail: Bytes): Bytes {
    if chunks == [] then tail
    else SizeLine(chunks[0].size) + CRLF + (chunks[0].data + (CRLF + ChunkBytes(chunks[1..], tail)))
  }

  function BodyBytes(b: WireBody): Bytes {
    match b
    case Empty => []
    case Sized(data) => data
    case Chunks(chunks, last, trailers) => ChunkBytes(chunks, SizeLine(last) + CRLF + FieldBytes(trailers))
  }

  function WireBytes(w: WireRequest): Bytes {
    TripleText(w.line) + CRLF + (FieldBytes(w.fields) + BodyBytes(w.body))
  }

  // ---- The grammar. ----

  /** A line has no CR LF inside and fits, terminator included. */
  predicate IsLine(line: Bytes, max: nat) {
    LineEnd(line) == None && |line| + 2 <= max
  }

  predicate IsField(rules: seq<Rule>, kind: FieldKind, f: FieldForm) {
    && IsFieldForm(rules, f) && IsLine(FieldText(f), 8192)
    && (kind.Trailers? ==> NameOf(f) !in {"Content-Length", "Host", "Transfer-Encoding", "Trailer"})
  }

  function NameOf(f: FieldForm): Bytes {
    Canonical(f.name)
  }

  predicate DistinctNames(fs: seq<FieldForm>) {
    forall i, j :: 0 <= i < j < |fs| ==> NameOf(fs[i]) != NameOf(fs[j])
  }

  predicate DistinctFields(rules: seq<Rule>, kind: FieldKind, fs: seq<FieldForm>) {
    (forall i :: 0 <= i < |fs| ==> IsField(rules, kind, fs[i])) && DistinctNames(fs)
  }

  /** At most 63 header fields or 15 trailer fields, with distinct names. */
  predicate AreFields(rules: seq<Rule>, kind: FieldKind, fs: seq<FieldForm>) {
    |fs| <= (if kind.Headers? then 63 else 15) && DistinctFields(rules, kind, fs)
  }

  function FieldMapOf(fs: seq<FieldForm>): FieldMap {
    if fs == [] then map[] else FieldMapOf(Init(fs))[NameOf(Last(fs)) := Last(fs).value]
  }

  function DataOf(chunks: seq<Chunk>): Bytes {
    if chunks == [] then [] else chunks[0].data + DataOf(chunks[1..])
  }

  predicate IsChunk(c: Chunk) {
    IsLine(SizeLine(c.size), 8192) && c.data != [] && IsSizeForm(c.size, |c.data|)
  }

  predicate IsLastChunk(f: SizeForm) {
    IsLine(SizeLine(f), 8192) && IsSizeForm(f, 0)
  }

  /** The framing in which a body is written. */
  function FramingBy(b: WireBody): Framing {
    match b case Empty => NoBody case Sized(data) => Length(|data|) case Chunks(_, _, _) => Chunked
  }

  /** The decoded bytes fit and no rule fires on them as a whole. */
  predicate IsBody(rules: seq<Rule>, b: WireBody) {
    match b
    case Empty => true
    case Sized(data) => Scan(rules, data) == None
    case Chunks(chunks, last, trailers) =>
      && (forall i :: 0 <= i < |chunks| ==> IsChunk(chunks[i]))
      && IsLastChunk(last) && AreFields(rules, Trailers, trailers)
      && |DataOf(chunks)| <= 0x10_0000 && Scan(rules, DataOf(chunks)) == None
  }

  function Decoded(b: WireBody): (Bytes, FieldMap) {
    match b
    case Empty => ([], map[])
    case Sized(data) => (data, map[])
    case Chunks(chunks, _, trailers) => (DataOf(chunks), FieldMapOf(trailers))
  }

  /** `w` is a well-formed way of writing the request `q`. */
  ghost predicate Writes(rules: seq<Rule>, w: WireRequest, q: Request) {
    && IsRequestForm(rules, w.line) && IsLine(TripleText(w.line), 4096)
    && q.verb == w.line.first && q.path == w.line.second && q.version == w.line.third == "HTTP/1.1"
    && AreFields(rules, Headers, w.fields) && q.headers == FieldMapOf(w.fields)
    && Frames(q.headers, FramingBy(w.body)) && IsBody(rules, w.body)
    && (q.body, q.trailers) == Decoded(w.body)
  }

  // ---- Lines. ----

  lemma {:induction false} LineEndAppend(l: Bytes, s: Bytes)
    requires LineEnd(l) == None
    ensures LineEnd(l + CRLF + s) == Some(|l|)
  {
    var t := l + CRLF + s;
    if l != [] {
      assert t[1..] == l[1..] + CRLF + s;
      assert LineEnd(l[1..]) == None by {
        if |l| < 2 {
          assert l[1..] == [];
        }
      }
      LineEndAppend(l[1..], s);
      assert t[0] == l[0] && t[1] == if |l| > 1 then l[1] else '\r';
    }
  }

  lemma {:induction false} LineEndPrefix(s: Bytes)
    requires LineEnd(s).Some?
    ensures LineEnd(s[..LineEnd(s).value]) == None
  {
    var k := LineEnd(s).value;
    if k > 0 {
      LineEndPrefix(s[1..]);
      assert s[..k][1..] == s[1..][..k - 1];
    }
  }

  /** Reading a line succeeds exactly on a well-formed line and its terminator. */
  lemma ReadLineExactly(s: Bytes, max: nat, end: ReadEnd, line: Bytes, rest: Bytes)
    ensures ReadLine(s, max, end) == Ok(line, rest) <==> IsLine(line, max) && s == line + CRLF + rest
  {
    if IsLine(line, max) && s == line + CRLF + rest {
      LineEndAppend(line, rest);
      assert s[..|line|] == line && s[|line| + 2..] == rest;
    }
    if ReadLine(s, max, end) == Ok(line, rest) {
      LineEndPrefix(s);
      assert s == s[..|line|] + CRLF + s[|line| + 2..];
    }
  }

  /** Reading a line fails exactly when the stream does not start with one, with an error that tells why. */
  lemma ReadLineFailsExactly(s: Bytes, max: nat, end: ReadEnd, e: ParseError)
    ensures ReadLine(s, max, end) == Err(e) <==>
            && (forall line, rest :: IsLine(line, max) ==> s != line + CRLF + rest)
            && (|s| > max ==> e == LineTooLong)
            && (|s| <= max && end.Failure? ==> e == ReadFailed)
            && (|s| <= max && end.Eof? ==> e == if s == [] then EndOfStream else IncompleteLine)
  {
    hide LineEnd;
    forall line, rest | IsLine(line, max) && s == line + CRLF + rest ensures ReadLine(s, max, end) == Ok(line, rest) {
      ReadLineExactly(s, max, end, line, rest);
    }
    if ReadLine(s, max, end).Ok? {
      ReadLineExactly(s, max, end, ReadLine(s, max, end).value, ReadLine(s, max, end).rest);
    }
  }

  // ---- Fields. ----

  lemma {:induction false} FieldMapKeys(fs: seq<FieldForm>)
    ensures forall n :: n in FieldMapOf(fs) <==> exists i :: 0 <= i < |fs| && NameOf(fs[i]) == n
    ensures |FieldMapOf(fs)| <= |fs|
  {
    hide NameOf;
    if fs != [] {
      FieldMapKeys(Init(fs));
      forall i | 0 <= i < |fs| - 1 ensures fs[i] == Init(fs)[i] {
      }
    }
  }

  /** A field form is read as its canonical name and its value, and is refused in trailers for its name only. */
  lemma FieldIsRead(rules: seq<Rule>, kind: FieldKind, f: FieldForm)
    requires IsField(rules, kind, f)
    ensures FieldText(f) != [] && FieldLine(rules, FieldText(f)) == Good((NameOf(f), f.value))
    ensures kind.Trailers? ==> !IsForbiddenTrailer(NameOf(f))
  {
    hide FieldLine, IsFieldForm, LineEnd, Canonical;
    FormIsRead(rules, f);
    assert |FieldText(f)| > 0;
  }

  lemma AreFieldsSnoc(rules: seq<Rule>, kind: FieldKind, done: seq<FieldForm>, f: FieldForm)
    requires DistinctFields(rules, kind, done)
    requires IsField(rules, kind, f) && NameOf(f) !in FieldMapOf(done)
    ensures DistinctFields(rules, kind, done + [f])
    ensures FieldMapOf(done + [f]) == FieldMapOf(done)[NameOf(f) := f.value]
  {
    hide IsField, NameOf;
    FieldMapKeys(done);
    InitAppend(done, f);
  }

  lemma ConsField(done: seq<FieldForm>, f: FieldForm, tail: seq<FieldForm>)
    ensures done + ([f] + tail) == done + [f] + tail
    ensures FieldBytes([f] + tail) == FieldText(f) + CRLF + FieldBytes(tail)
  {
    assert ([f] + tail)[1..] == tail;
  }

  /** The form of an accepted field line. */
  lemma FormOfField(rules: seq<Rule>, kind: FieldKind, line: Bytes) returns (f: FieldForm)
    requires line != [] && IsLine(line, MAX_HEADER_LINE) && FieldLine(rules, line).Good?
    requires kind.Trailers? ==> !IsForbiddenTrailer(FieldLine(rules, line).value.0)
    ensures IsField(rules, kind, f) && FieldText(f) == line && FieldLine(rules, line).value == (NameOf(f), f.value)
  {
    hide FieldLine, IsFieldForm, LineEnd, Canonical, FieldText;
    f := FormOfLine(rules, line);
  }

  /** Soundness: what ReadFields accepts is a list of well-formed field lines and the blank line. */
  lemma {:induction false} ReadFieldsSound(rules: seq<Rule>, s: Bytes, end: ReadEnd, kind: FieldKind, done: seq<FieldForm>)
    returns (more: seq<FieldForm>)
    requires |done| <= MaxFields(kind) && DistinctFields(rules, kind, done)
    requires ReadFields(rules, s, end, kind, |done|, FieldMapOf(done)).Ok?
    ensures var r := ReadFields(rules, s, end, kind, |done|, FieldMapOf(done));
            AreFields(rules, kind, done + more) && r.value == FieldMapOf(done + more) && s == FieldBytes(more) + r.rest
    decreases |s|
  {
    hide ReadLine, LineEnd, FieldLine, IsField, DistinctNames, FieldText, NameOf;
    var r := ReadFields(rules, s, end, kind, |done|, FieldMapOf(done));
    var read := ReadLine(s, MAX_HEADER_LINE, end);
    var line, rest := read.value, read.rest;
    ReadLineExactly(s, MAX_HEADER_LINE, end, line, rest);
    if line == [] {
      more := [];
      assert done + more == done;
    } else {
      var f := FormOfField(rules, kind, line);
      AreFieldsSnoc(rules, kind, done, f);
      var tail := ReadFieldsSound(rules, rest, end, kind, done + [f]);
      more := [f] + tail;
      ConsField(done, f, tail);
      Assoc(line + CRLF, FieldBytes(tail), r.rest);
    }
  }

  /** The next of a list of well-formed fields is a field with a new name. */
  lemma NextField(rules: seq<Rule>, kind: FieldKind, done: seq<FieldForm>, more: seq<FieldForm>)
    requires DistinctFields(rules, kind, done + more) && more != []
    ensures IsField(rules, kind, more[0]) && NameOf(more[0]) !in FieldMapOf(done)
    ensures FieldMapOf(done + [more[0]]) == FieldMapOf(done)[NameOf(more[0]) := more[0].value]
    ensures done + more == done + [more[0]] + more[1..]
  {
    hide IsField, NameOf;
    var all := done + more;
    assert all[|done|] == more[0];
    FieldMapKeys(done);
    forall i | 0 <= i < |done| ensures NameOf(done[i]) != NameOf(more[0]) {
      assert all[i] == done[i];
    }
    InitAppend(done, more[0]);
  }

  /** Completeness: every well-formed list of fields is read back, in full and no further. */
  lemma {:induction false} ReadFieldsComplete(rules: seq<Rule>, kind: FieldKind, done: seq<FieldForm>, more: seq<FieldForm>,
                                              tail: Bytes, end: ReadEnd)
    requires AreFields(rules, kind, done + more)
    ensures ReadFields(rules, FieldBytes(more) + tail, end, kind, |done|, FieldMapOf(done))
            == Ok(FieldMapOf(done + more), tail)
    decreases |more|
  {
    hide ReadLine, LineEnd, FieldLine, IsForbiddenTrailer, DistinctNames, FieldText, NameOf, IsFieldForm;
    var s := FieldBytes(more) + tail;
    if more == [] {
      assert done + more == done;
      assert s == [] + CRLF + tail;
      NothingIsALine();
      ReadLineExactly(s, MAX_HEADER_LINE, end, [], tail);
    } else {
      var line, next := FieldText(more[0]), FieldBytes(more[1..]) + tail;
      NextField(rules, kind, done, more);
      FieldIsRead(rules, kind, more[0]);
      Assoc(line + CRLF, FieldBytes(more[1..]), tail);
      ReadLineExactly(s, MAX_HEADER_LINE, end, line, next);
      ReadFieldsComplete(rules, kind, done + [more[0]], more[1..], tail, end);
    }
  }

  lemma NothingIsALine()
    ensures IsLine([], MAX_HEADER_LINE)
  {
  }

  /** A longer list is refused for its number once the limit is reached. */
  lemma {:induction false} TooManyFieldLines(rules: seq<Rule>, kind: FieldKind, done: seq<FieldForm>, more: seq<FieldForm>,
                                             tail: Bytes, end: ReadEnd)
    requires DistinctFields(rules, kind, done + more) && |done| <= MaxFields(kind) <= |done| + |more|
    ensures ReadFields(rules, FieldBytes(more) + tail, end, kind, |done|, FieldMapOf(done)) == Err(TooManyFields(kind))
    decreases |more|
  {
    hide ReadLine, LineEnd, FieldLine, IsForbiddenTrailer, DistinctNames, FieldText, NameOf, IsFieldForm;
    if |done| < MaxFields(kind) {
      var line, next := FieldText(more[0]), FieldBytes(more[1..]) + tail;
      NextField(rules, kind, done, more);
      FieldIsRead(rules, kind, more[0]);
      Assoc(line + CRLF, FieldBytes(more[1..]), tail);
      ReadLineExactly(FieldBytes(more) + tail, MAX_HEADER_LINE, end, line, next);
      TooManyFieldLines(rules, kind, done + [more[0]], more[1..], tail, end);
    }
  }

  /** Distinct fields, each acceptable, are accepted exactly up to 63 headers or 15 trailers. */
  lemma FieldLimitExactly(rules: seq<Rule>, kind: FieldKind, fs: seq<FieldForm>, tail: Bytes, end: ReadEnd)
    requires DistinctFields(rules, kind, fs)
    ensures ReadFields(rules, FieldBytes(fs) + tail, end, kind, 0, map[]) ==
            if |fs| <= (if kind.Headers? then 63 else 15) then Ok(FieldMapOf(fs), tail) else Err(TooManyFields(kind))
  {
    hide ReadFields, DistinctFields;
    assert [] + fs == fs;
    if |fs| < MaxFields(kind) {
      ReadFieldsComplete(rules, kind, [], fs, tail, end);
    } else {
      TooManyFieldLines(rules, kind, [], fs, tail, end);
    }
  }

  // ---- Chunked bodies. ----

  /** No report on the whole means no report on any part of it. */
  lemma QuietPrefix(rules: seq<Rule>, a: Bytes, b: Bytes)
    requires Scan(rules, a + b) == None
    ensures ScanOpen(rules, a) == None
  {
    if ScanOpen(rules, a).Some? {
      EarlyReportIsFinal(rules, a, b);
    }
  }

  lemma TakeChunkSound(rules: seq<Rule>, data: Bytes, size: nat, body: Bytes, end: ReadEnd)
    requires TakeChunk(rules, data, size, body, end).Ok?
    ensures size <= |data| && |body| + size <= MAX_BODY
    ensures var r := TakeChunk(rules, data, size, body, end);
            r.value == body + data[..size] && data == data[..size] + (CRLF + r.rest)
  {
    assert data == data[..size] + data[size..];
    assert data[size..] == CRLF + data[size..][2..];
  }

  lemma TakeChunkComplete(rules: seq<Rule>, chunk: Bytes, body: Bytes, end: ReadEnd, rest: Bytes)
    requires |body| + |chunk| <= MAX_BODY && ScanOpen(rules, body + chunk) == None
    ensures TakeChunk(rules, chunk + (CRLF + rest), |chunk|, body, end) == Ok(body + chunk, rest)
  {
    var data := chunk + (CRLF + rest);
    assert data[..|chunk|] == chunk && data[|chunk|..] == CRLF + rest && (CRLF + rest)[2..] == rest;
  }

  /** The rest of a chunked body, after `body` has been decoded. */
  predicate IsRestOfChunks(rules: seq<Rule>, body: Bytes, b: WireBody) {
    && b.Chunks?
    && (forall i :: 0 <= i < |b.chunks| ==> IsChunk(b.chunks[i]))
    && IsLastChunk(b.last) && AreFields(rules, Trailers, b.trailers)
    && |body| + |DataOf(b.chunks)| <= MAX_BODY && Scan(rules, body + DataOf(b.chunks)) == None
  }

  lemma {:induction false} ReadChunksSound(rules: seq<Rule>, s: Bytes, end: ReadEnd, body: Bytes) returns (b: WireBody)
    requires |body| <= MAX_BODY && ReadChunks(rules, s, end, body).Ok?
    ensures IsRestOfChunks(rules, body, b)
    ensures var r := ReadChunks(rules, s, end, body);
            s == BodyBytes(b) + r.rest && r.value == (body + DataOf(b.chunks), FieldMapOf(b.trailers))
    decreases |s|
  {
    hide ReadLine, LineEnd, ChunkSize, TakeChunk, ReadFields, AreFields, IsSizeForm, SizeLine, Scan;
    var r := ReadChunks(rules, s, end, body);
    var read := ReadLine(s, MAX_HEADER_LINE, end);
    var line, data := read.value, read.rest;
    ReadLineExactly(s, MAX_HEADER_LINE, end, line, data);
    var size := ChunkSize(line).value;
    SizeLineExactly(line, size);
    var form :| IsSizeForm(form, size) && SizeLine(form) == line;
    if size == 0 {
      NoFieldsYet(rules, Trailers);
      var trailers := ReadFieldsSound(rules, data, end, Trailers, []);
      assert [] + trailers == trailers;
      b := Chunks([], form, trailers);
      assert body + DataOf(b.chunks) == body;
      Assoc(line + CRLF, FieldBytes(trailers), r.rest);
    } else {
      TakeChunkSound(rules, data, size, body, end);
      var chunk, longer := data[..size], body + data[..size];
      var rest := TakeChunk(rules, data, size, body, end).rest;
      var tail := ReadChunksSound(rules, rest, end, longer);
      b := Chunks([Chunk(form, chunk)] + tail.chunks, tail.last, tail.trailers);
      ConsChunk(Chunk(form, chunk), tail);
      Assoc(body, chunk, DataOf(tail.chunks));
      AssocChunk(line, chunk, BodyBytes(tail), r.rest);
    }
  }

  lemma NoFieldsYet(rules: seq<Rule>, kind: FieldKind)
    ensures DistinctFields(rules, kind, []) && FieldMapOf([]) == map[]
  {
  }

  lemma ConsChunk(c: Chunk, tail: WireBody)
    requires tail.Chunks?
    ensures DataOf([c] + tail.chunks) == c.data + DataOf(tail.chunks)
    ensures BodyBytes(Chunks([c] + tail.chunks, tail.last, tail.trailers))
            == SizeLine(c.size) + CRLF + (c.data + (CRLF + BodyBytes(tail)))
  {
    var cs := [c] + tail.chunks;
    assert cs[1..] == tail.chunks;
  }

  lemma AssocChunk(line: Bytes, chunk: Bytes, tail: Bytes, rest: Bytes)
    ensures line + CRLF + (chunk + (CRLF + tail)) + rest == line + CRLF + (chunk + (CRLF + (tail + rest)))
  {
  }

  /** The next chunk of the rest of a body is taken, and the others are the rest of the longer body. */
  lemma NextChunk(rules: seq<Rule>, body: Bytes, b: WireBody, tail: WireBody)
    requires IsRestOfChunks(rules, body, b) && b.chunks != [] && tail == Chunks(b.chunks[1..], b.last, b.trailers)
    ensures IsChunk(b.chunks[0]) && |body| + |b.chunks[0].data| <= MAX_BODY
    ensures ScanOpen(rules, body + b.chunks[0].data) == None
    ensures body + b.chunks[0].data + DataOf(tail.chunks) == body + DataOf(b.chunks)
    ensures IsRestOfChunks(rules, body + b.chunks[0].data, tail)
  {
    hide IsChunk, IsLastChunk, AreFields, Scan, ScanOpen;
    Assoc(body, b.chunks[0].data, DataOf(tail.chunks));
    QuietPrefix(rules, body + b.chunks[0].data, DataOf(tail.chunks));
  }

  /** A size line is read as its size. */
  lemma SizeIsRead(f: SizeForm, n: nat, rest: Bytes, end: ReadEnd)
    requires IsSizeForm(f, n) && IsLine(SizeLine(f), MAX_HEADER_LINE)
    ensures ReadChunkSize(SizeLine(f) + CRLF + rest, end) == Ok(n, rest)
  {
    hide ReadLine, LineEnd, ChunkSize, IsSizeForm;
    SizeLineExactly(SizeLine(f), n);
    ReadLineExactly(SizeLine(f) + CRLF + rest, MAX_HEADER_LINE, end, SizeLine(f), rest);
  }

  lemma {:induction false} ReadChunksComplete(rules: seq<Rule>, body: Bytes, b: WireBody, rest: Bytes, end: ReadEnd)
    requires IsRestOfChunks(rules, body, b)
    ensures ReadChunks(rules, BodyBytes(b) + rest, end, body)
            == Ok((body + DataOf(b.chunks), FieldMapOf(b.trailers)), rest)
    decreases if b.Chunks? then |b.chunks| else 0
  {
    hide ReadChunkSize, LineEnd, TakeChunk, ReadFields, Scan, AreFields, IsSizeForm, SizeLine;
    var s := BodyBytes(b) + rest;
    if b.chunks == [] {
      assert body + DataOf(b.chunks) == body;
      Assoc(SizeLine(b.last) + CRLF, FieldBytes(b.trailers), rest);
      SizeIsRead(b.last, 0, FieldBytes(b.trailers) + rest, end);
      NoFieldsYet(rules, Trailers);
      assert [] + b.trailers == b.trailers;
      ReadFieldsComplete(rules, Trailers, [], b.trailers, rest, end);
    } else {
      var c, tail := b.chunks[0], Chunks(b.chunks[1..], b.last, b.trailers);
      assert b.chunks == [c] + tail.chunks;
      ConsChunk(c, tail);
      AssocChunk(SizeLine(c.size), c.data, BodyBytes(tail), rest);
      SizeIsRead(c.size, |c.data|, c.data + (CRLF + (BodyBytes(tail) + rest)), end);
      NextChunk(rules, body, b, tail);
      TakeChunkComplete(rules, c.data, body, end, BodyBytes(tail) + rest);
      ReadChunksComplete(rules, body + c.data, tail, rest, end);
    }
  }

  // ---- Whole requests. ----

  lemma ReadBodySound(rules: seq<Rule>, s: Bytes, end: ReadEnd, framing: Framing) returns (b: WireBody)
    requires ReadBodyAs(rules, s, end, framing).Ok?
    ensures IsBody(rules, b) && FramingBy(b) == framing
    ensures s == BodyBytes(b) + ReadBodyAs(rules, s, end, framing).rest
    ensures ReadBodyAs(rules, s, end, framing).value == Decoded(b)
  {
    hide Scan, AreFields, IsChunk, IsLastChunk, ReadChunks, ScanOpen;
    match framing
    case NoBody =>
      b := Empty;
      assert s == [] + s;
    case Length(n) =>
      b := Sized(s[..n]);
      assert s == s[..n] + s[n..];
    case Chunked =>
      b := ReadChunksSound(rules, s, end, []);
      assert [] + DataOf(b.chunks) == DataOf(b.chunks);
  }

  lemma ReadBodyComplete(rules: seq<Rule>, b: WireBody, rest: Bytes, end: ReadEnd)
    requires IsBody(rules, b)
    ensures ReadBodyAs(rules, BodyBytes(b) + rest, end, FramingBy(b)) == Ok(Decoded(b), rest)
  {
    hide Scan, AreFields, IsChunk, IsLastChunk, ReadChunks, ScanOpen;
    var s := BodyBytes(b) + rest;
    match b
    case Empty =>
      assert s == rest;
    case Sized(data) =>
      assert s[..|data|] == data && s[|data|..] == rest;
    case Chunks(chunks, _, _) =>
      assert [] + DataOf(chunks) == DataOf(chunks);
      ReadChunksComplete(rules, [], b, rest, end);
  }

  /** Every accepted request was written in the grammar, and exactly its own bytes were consumed. */
  lemma ParseSound(rules: seq<Rule>, s: Bytes, end: ReadEnd) returns (w: WireRequest)
    requires Parse(rules, s, end).Ok?
    ensures Writes(rules, w, Parse(rules, s, end).value)
    ensures s == WireBytes(w) + Parse(rules, s, end).rest
  {
    hide ReadLine, RequestLine, ReadFields, ReadBodyAs, FramingOf, LineEnd, AreFields, IsBody, Frames, IsRequestForm, TripleText;
    var first := ReadLine(s, MAX_REQUEST_LINE, end);
    ReadLineExactly(s, MAX_REQUEST_LINE, end, first.value, first.rest);
    var q := Parse(rules, s, end).value;
    RequestLineExactly(rules, first.value, q.verb, q.path, q.version);
    var line: Triple :| IsRequestForm(rules, line) && TripleText(line) == first.value
                        && line.first == q.verb && line.second == q.path && line.third == q.version;
    NoFieldsYet(rules, Headers);
    var fields := ReadFieldsSound(rules, first.rest, end, Headers, []);
    assert [] + fields == fields;
    var headers := ReadFields(rules, first.rest, end, Headers, 0, map[]);
    FramingExactly(headers.value, FramingOf(headers.value).value);
    var body := ReadBodySound(rules, headers.rest, end, FramingOf(headers.value).value);
    w := WireRequest(line, fields, body);
    Assoc(FieldBytes(fields), BodyBytes(body), Parse(rules, s, end).rest);
    Assoc(first.value + CRLF, FieldBytes(fields) + BodyBytes(body), Parse(rules, s, end).rest);
  }

  /** The lines of a request are read, whatever its headers say. */
  lemma LinesAreRead(rules: seq<Rule>, w: WireRequest, rest: Bytes, end: ReadEnd)
    requires IsRequestForm(rules, w.line) && IsLine(TripleText(w.line), MAX_REQUEST_LINE)
    requires AreFields(rules, Headers, w.fields)
    ensures var text := TripleText(w.line);
            var tail := FieldBytes(w.fields) + (BodyBytes(w.body) + rest);
            && ReadLine(WireBytes(w) + rest, MAX_REQUEST_LINE, end) == Ok(text, tail)
            && RequestLine(rules, text) == Good((w.line.first, w.line.second, w.line.third))
            && ReadFields(rules, tail, end, Headers, 0, map[]) == Ok(FieldMapOf(w.fields), BodyBytes(w.body) + rest)
  {
    hide ReadLine, RequestLine, ReadFields, LineEnd, AreFields, IsRequestForm, TripleText;
    var text := TripleText(w.line);
    Assoc(text + CRLF, FieldBytes(w.fields) + BodyBytes(w.body), rest);
    Assoc(FieldBytes(w.fields), BodyBytes(w.body), rest);
    ReadLineExactly(WireBytes(w) + rest, MAX_REQUEST_LINE, end, text, FieldBytes(w.fields) + (BodyBytes(w.body) + rest));
    RequestLineExactly(rules, text, w.line.first, w.line.second, w.line.third);
    NoFieldsYet(rules, Headers);
    assert [] + w.fields == w.fields;
    ReadFieldsComplete(rules, Headers, [], w.fields, BodyBytes(w.body) + rest, end);
  }

  /** Every request written in the grammar is accepted, whatever bytes follow it. */
  lemma ParseComplete(rules: seq<Rule>, w: WireRequest, q: Request, rest: Bytes, end: ReadEnd)
    requires Writes(rules, w, q)
    ensures Parse(rules, WireBytes(w) + rest, end) == Ok(q, rest)
  {
    hide ReadLine, RequestLine, ReadFields, ReadBodyAs, FramingOf, LineEnd, AreFields, IsBody, Frames, IsRequestForm, TripleText,
         WireBytes;
    LinesAreRead(rules, w, rest, end);
    FramingExactly(q.headers, FramingBy(w.body));
    ReadBodyComplete(rules, w.body, rest, end);
  }

  /** Well-formed lines whose fields frame no body are refused for that. */
  lemma BadFramingIsRefused(rules: seq<Rule>, w: WireRequest, rest: Bytes, end: ReadEnd)
    requires IsRequestForm(rules, w.line) && IsLine(TripleText(w.line), MAX_REQUEST_LINE) && w.line.third == "HTTP/1.1"
    requires AreFields(rules, Headers, w.fields) && forall f :: !Frames(FieldMapOf(w.fields), f)
    ensures FramingOf(FieldMapOf(w.fields)).Bad?
    ensures Parse(rules, WireBytes(w) + rest, end) == Err(FramingOf(FieldMapOf(w.fields)).error)
  {
    hide ReadLine, RequestLine, ReadFields, ReadBodyAs, FramingOf, LineEnd, AreFields, IsBody, Frames, IsRequestForm, TripleText,
         WireBytes;
    LinesAreRead(rules, w, rest, end);
    if FramingOf(FieldMapOf(w.fields)).Good? {
      FramingExactly(FieldMapOf(w.fields), FramingOf(FieldMapOf(w.fields)).value);
      assert false;
    }
  }

  /** A target on which a rule fires is refused with that rule, whatever follows. */
  lemma FiringTargetIsRefused(rules: seq<Rule>, t: Triple, meant: Bytes, rule: Rule, rest: Bytes, end: ReadEnd)
    requires HasRequestShape(t) && IsLine(TripleText(t), MAX_REQUEST_LINE)
    requires Spells(t.second, meant) || (Malformed(t.second) && meant == t.second)
    requires Scan(rules, meant) == Some(rule)
    ensures Parse(rules, TripleText(t) + CRLF + rest, end) == Err(Blocked(Match(rule.pattern, "uri", rule.id)))
  {
    hide ReadLine, RequestLine, LineEnd, TripleText, HasRequestShape, Scan, Spells, Malformed;
    ReadLineExactly(TripleText(t) + CRLF + rest, MAX_REQUEST_LINE, end, TripleText(t), rest);
    TargetIsBlocked(rules, t, meant);
  }

  /** So is a field on whose value a rule fires, behind acceptable fields. */
  lemma {:induction false} FiringFieldIsRefused(rules: seq<Rule>, kind: FieldKind, done: seq<FieldForm>, more: seq<FieldForm>,
                                                bad: FieldForm, rule: Rule, rest: Bytes, end: ReadEnd)
    requires AreFields(rules, kind, done + more) && HasFieldShape(bad) && IsLine(FieldText(bad), MAX_HEADER_LINE)
    requires bad.value != [] && Scan(rules, bad.value) == Some(rule)
    ensures ReadFields(rules, LinesBytes(more) + (FieldText(bad) + CRLF + rest), end, kind, |done|, FieldMapOf(done))
            == Err(Blocked(Match(rule.pattern, "header:" + NameOf(bad), rule.id)))
    decreases |more|
  {
    hide ReadLine, LineEnd, FieldLine, IsForbiddenTrailer, DistinctNames, FieldText, IsFieldForm, HasFieldShape, Scan, Canonical;
    var tail := FieldText(bad) + CRLF + rest;
    if more == [] {
      assert [] + tail == tail;
      ReadLineExactly(tail, MAX_HEADER_LINE, end, FieldText(bad), rest);
      ValueIsBlocked(rules, bad);
      TextIsSomething(bad);
    } else {
      var line, next := FieldText(more[0]), LinesBytes(more[1..]) + tail;
      NextField(rules, kind, done, more);
      FieldIsRead(rules, kind, more[0]);
      Assoc(line + CRLF, LinesBytes(more[1..]), tail);
      ReadLineExactly(LinesBytes(more) + tail, MAX_HEADER_LINE, end, line, next);
      FiringFieldIsRefused(rules, kind, done + [more[0]], more[1..], bad, rule, rest, end);
    }
  }

  /** The lines of some fields, without the blank line. */
  function LinesBytes(fs: seq<FieldForm>): Bytes {
    if fs == [] then [] else FieldText(fs[0]) + CRLF + LinesBytes(fs[1..])
  }

  lemma TextIsSomething(f: FieldForm)
    ensures FieldText(f) != []
  {
    assert |FieldText(f)| > 0;
  }

  /** Any version but HTTP/1.1 is refused. */
  lemma OtherVersionIsRefused(rules: seq<Rule>, w: WireRequest, rest: Bytes, end: ReadEnd)
    requires IsRequestForm(rules, w.line) && IsLine(TripleText(w.line), MAX_REQUEST_LINE) && w.line.third != "HTTP/1.1"
    requires AreFields(rules, Headers, w.fields)
    ensures Parse(rules, WireBytes(w) + rest, end) == Err(UnsupportedVersion)
  {
    hide ReadLine, RequestLine, ReadFields, LineEnd, AreFields, IsRequestForm, TripleText, WireBytes;
    LinesAreRead(rules, w, rest, end);
  }

  /** A body that is cut off is refused: for what a rule finds in the part that arrived, else for breaking off. */
  lemma CutBodyIsRefused(rules: seq<Rule>, w: WireRequest, n: nat, part: Bytes, end: ReadEnd)
    requires IsRequestForm(rules, w.line) && IsLine(TripleText(w.line), MAX_REQUEST_LINE) && w.line.third == "HTTP/1.1"
    requires AreFields(rules, Headers, w.fields) && w.body.Empty? && Frames(FieldMapOf(w.fields), Length(n)) && |part| < n
    ensures Parse(rules, WireBytes(w) + part, end) ==
            Err(match ScanOpen(rules, part)
                case Some(rule) => Blocked(Match(rule.pattern, "body", rule.id))
                case None => if end.Eof? then IncompleteBody else ReadFailed)
  {
    hide ReadLine, RequestLine, ReadFields, FramingOf, LineEnd, AreFields, Frames, IsRequestForm, TripleText, WireBytes, ScanOpen;
    LinesAreRead(rules, w, part, end);
    FramingExactly(FieldMapOf(w.fields), Length(n));
    assert [] + part == part;
  }

  /** So is a chunk that is cut off; the error tells whether anything of it arrived. */
  lemma CutChunkIsRefused(rules: seq<Rule>, w: WireRequest, f: SizeForm, n: nat, part: Bytes, end: ReadEnd)
    requires IsRequestForm(rules, w.line) && IsLine(TripleText(w.line), MAX_REQUEST_LINE) && w.line.third == "HTTP/1.1"
    requires AreFields(rules, Headers, w.fields) && w.body.Empty? && Frames(FieldMapOf(w.fields), Chunked)
    requires IsSizeForm(f, n) && IsLine(SizeLine(f), MAX_HEADER_LINE) && |part| < n
    ensures Parse(rules, WireBytes(w) + (SizeLine(f) + CRLF + part), end) == Err(IncompleteChunk(part == [] && end.Eof?))
  {
    hide ReadLine, RequestLine, ReadFields, FramingOf, LineEnd, AreFields, Frames, IsRequestForm, TripleText, WireBytes, ReadChunkSize,
         SizeLine, IsSizeForm;
    var rest := SizeLine(f) + CRLF + part;
    LinesAreRead(rules, w, rest, end);
    FramingExactly(FieldMapOf(w.fields), Chunked);
    SizeIsRead(f, n, part, end);
    SizeIsWithin(f, n);
    assert [] + rest == rest;
  }

  lemma SizeIsWithin(f: SizeForm, n: nat)
    requires IsSizeForm(f, n)
    ensures n <= MAX_BODY
  {
  }

  /** No proper beginning of a request is accepted, however the stream ends. */
  lemma BeginningIsRefused(rules: seq<Rule>, w: WireRequest, q: Request, n: nat, end: ReadEnd)
    requires Writes(rules, w, q) && n < |WireBytes(w)|
    ensures Parse(rules, WireBytes(w)[..n], end).Err?
  {
    hide Parse, Writes, WireBytes;
    var s := WireBytes(w);
    if Parse(rules, s[..n], end).Ok? {
      ParseIsLocal(rules, s[..n], end, s[n..], end);
      assert s[..n] + s[n..] == s == s + [];
      ParseComplete(rules, w, q, [], end);
    }
  }

  /** The parser accepts exactly the grammar. */
  lemma ParseExactly(rules: seq<Rule>, s: Bytes, end: ReadEnd, q: Request, rest: Bytes)
    ensures Parse(rules, s, end) == Ok(q, rest) <==> exists w :: Writes(rules, w, q) && s == WireBytes(w) + rest
  {
    hide Parse, Writes, WireBytes;
    if Parse(rules, s, end) == Ok(q, rest) {
      var w := ParseSound(rules, s, end);
    }
    if w :| Writes(rules, w, q) && s == WireBytes(w) + rest {
      ParseComplete(rules, w, q, rest, end);
    }
  }

  /** What follows an accepted request, and how the stream ends, has no influence on it. */
  lemma ParseIsLocal(rules: seq<Rule>, s: Bytes, end: ReadEnd, more: Bytes, end': ReadEnd)
    requires Parse(rules, s, end).Ok?
    ensures Parse(rules, s + more, end') == Ok(Parse(rules, s, end).value, Parse(rules, s, end).rest + more)
  {
    hide Parse, Writes, WireBytes;
    var w := ParseSound(rules, s, end);
    Assoc(WireBytes(w), Parse(rules, s, end).rest, more);
    ParseComplete(rules, w, Parse(rules, s, end).value, Parse(rules, s, end).rest + more, end');
  }
}
