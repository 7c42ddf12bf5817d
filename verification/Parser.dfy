/** The request parser as the source runs it (http/parser.go): loops over a shared buffered reader, scanning
  * while it reads. Every method is proved against the function of the unread bytes in module Http. */
module Parser {
  import opened Text
  import opened Blanks
  import opened HttpText
  import opened Rules
  import opened Scanner
  import opened Http
  import A = Automaton

  /** A buffered reader over a stream that ends in a given way. */
  class Reader {
    const stream: Bytes
    const end: ReadEnd
    var pos: nat

    ghost predicate Valid()
      reads this
    {
      pos <= |stream|
    }

    ghost function Rest(): Bytes
      requires Valid()
      reads this
    {
      stream[pos..]
    }

    constructor (stream: Bytes, end: ReadEnd)
      ensures Valid() && Rest() == stream && this.end == end
    {
      this.stream, this.end, pos := stream, end, 0;
    }

    method ReadByte() returns (b: Option<char>)
      requires Valid()
      modifies this
      ensures Valid()
      ensures old(Rest()) == [] ==> b == None && Rest() == []
      ensures old(Rest()) != [] ==> b == Some(old(Rest())[0]) && Rest() == old(Rest())[1..]
    {
      if pos == |stream| {
        return None;
      }
      b := Some(stream[pos]);
      pos := pos + 1;
    }

    /** Delivers some non-empty part of what was asked for; the end of file may be announced with the last bytes. */
    method Read(body: array<char>, offset: nat) returns (n: nat, err: Option<ReadEnd>)
      requires Valid() && offset < body.Length
      modifies this, body
      ensures Valid() && offset + n <= body.Length && n <= |old(Rest())|
      ensures body[..offset + n] == old(body[..offset]) + old(Rest())[..n] && Rest() == old(Rest())[n..]
      ensures n == 0 ==> err == Some(end) && old(Rest()) == []
      ensures n > 0 && err.Some? ==> err == Some(Eof) && end.Eof? && Rest() == []
    {
      if pos == |stream| {
        return 0, Some(end);
      }
      n :| 0 < n <= body.Length - offset && n <= |stream| - pos;
      var from := pos;
      forall k | offset <= k < offset + n {
        body[k] := stream[from + k - offset];
      }
      pos := pos + n;
      var announced: bool := *;
      err := if announced && end.Eof? && pos == |stream| then Some(Eof) else None;
    }

    /** io.ReadFull for `size` bytes: all of them, or the error and everything consumed. */
    method ReadFull(size: nat) returns (data: Bytes, ok: bool, cleanEnd: bool)
      requires Valid()
      modifies this
      ensures Valid()
      ensures ok <==> |old(Rest())| >= size
      ensures ok ==> data == old(Rest())[..size] && Rest() == old(Rest())[size..]
      ensures !ok ==> (cleanEnd <==> old(Rest()) == [] && end.Eof?)
    {
      if size <= |stream| - pos {
        data, ok, cleanEnd := stream[pos..pos + size], true, false;
        pos := pos + size;
      } else {
        data, ok, cleanEnd := stream[pos..], false, pos == |stream| && end.Eof?;
        pos := |stream|;
      }
    }
  }

  // ---- Lines. ----

  lemma LineEndIsFirst(s: Bytes, k: nat)
    requires k + 2 <= |s| && s[k] == '\r' && s[k + 1] == '\n'
    requires forall j :: 0 <= j < k ==> !(s[j] == '\r' && s[j + 1] == '\n')
    ensures LineEnd(s) == Some(k)
  {
    if k > 0 {
      LineEndIsFirst(s[1..], k - 1);
    }
  }

  lemma LineEndBeyond(s: Bytes, n: nat)
    requires n <= |s| && forall j :: 0 <= j < n - 1 ==> !(s[j] == '\r' && s[j + 1] == '\n')
    ensures LineEnd(s).Some? ==> LineEnd(s).value + 2 > n
  {
  }

  method ReadLineLimited(reader: Reader, maxBytes: nat) returns (r: Result<Bytes>)
    requires reader.Valid()
    modifies reader
    ensures reader.Valid()
    ensures match ReadLine(old(reader.Rest()), maxBytes, reader.end)
            case Ok(line, rest) => r == Good(line) && reader.Rest() == rest
            case Err(e) => r == Bad(e)
  {
    hide LineEnd;
    ghost var s := reader.Rest();
    var line: Bytes := [];
    while true
      invariant reader.Valid() && |line| <= |s| && |line| <= maxBytes
      invariant line == s[..|line|] && reader.Rest() == s[|line|..]
      invariant forall j :: 0 <= j < |line| - 1 ==> !(s[j] == '\r' && s[j + 1] == '\n')
      decreases |s| - |line|
    {
      var b := reader.ReadByte();
      if b.None? {
        LineEndBeyond(s, |line|);
        if reader.end.Eof? && |line| > 0 {
          return Bad(IncompleteLine);
        }
        return Bad(ReadError(reader.end));
      }
      if |line| >= maxBytes {
        LineEndBeyond(s, |line|);
        return Bad(LineTooLong);
      }
      line := line + [b.value];
      if |line| >= 2 && line[|line| - 2] == '\r' && line[|line| - 1] == '\n' {
        LineEndIsFirst(s, |line| - 2);
        assert line[..|line| - 2] == s[..|line| - 2];
        return Good(line[..|line| - 2]);
      }
    }
  }

  // ---- Fields. ----

  method ScanValue(a: A.Automaton, field: string, value: Bytes) returns (m: Option<Match>)
    requires a.Valid()
    ensures m == ScanField(a.rules, field, value)
  {
    if |value| == 0 {
      return None;
    }
    var inspected := value;
    if field == "uri" {
      var decoded := PathUnescape(value);
      if decoded.Some? {
        inspected := decoded.value;
      }
    }
    var scanner := new Scanner(a);
    m := scanner.Feed(field, inspected);
    assert [] + inspected == inspected;
    if m.Some? {
      EarlyReportIsFinal(a.rules, inspected, []);
      assert inspected + [] == inspected;
      return;
    }
    m := scanner.Finish(field);
  }

  method ReadRequestLine(reader: Reader, a: A.Automaton) returns (r: Result<(Bytes, Bytes, Bytes)>)
    requires reader.Valid() && a.Valid()
    modifies reader
    ensures reader.Valid()
    ensures match ReadLine(old(reader.Rest()), MAX_REQUEST_LINE, reader.end)
            case Err(e) => r == Bad(e)
            case Ok(line, rest) => r == RequestLine(a.rules, line) && (r.Good? ==> reader.Rest() == rest)
  {
    var line := ReadLineLimited(reader, MAX_REQUEST_LINE);
    if line.Bad? {
      return Bad(line.error);
    }
    var parts := WordsOf(line.value);
    if |parts| != 3 {
      return Bad(MalformedRequestLine);
    }
    if !IsToken(parts[0]) {
      return Bad(InvalidMethod);
    }
    if !IsOriginForm(parts[0], parts[1]) {
      return Bad(UnsupportedTarget);
    }
    var hit := ScanValue(a, "uri", parts[1]);
    if hit.Some? {
      return Bad(Blocked(hit.value));
    }
    return Good((parts[0], parts[1], parts[2]));
  }

  /** None is the blank line that ends the fields. */
  method ReadHeaderLine(reader: Reader, a: A.Automaton) returns (r: Result<Option<(Bytes, Bytes)>>)
    requires reader.Valid() && a.Valid()
    modifies reader
    ensures reader.Valid()
    ensures match ReadLine(old(reader.Rest()), MAX_HEADER_LINE, reader.end)
            case Err(e) => r == Bad(e)
            case Ok(line, rest) =>
              && (r.Good? ==> reader.Rest() == rest)
              && (if line == [] then r == Good(None)
                  else match FieldLine(a.rules, line)
                       case Bad(e) => r == Bad(e)
                       case Good(field) => r == Good(Some(field)))
  {
    var read := ReadLineLimited(reader, MAX_HEADER_LINE);
    if read.Bad? {
      return Bad(read.error);
    }
    var line := read.value;
    if |line| == 0 {
      return Good(None);
    }
    if line[0] == ' ' || line[0] == '\t' {
      return Bad(FoldedLine);
    }
    var k := IndexOf(line, ':');
    if k == |line| {
      return Bad(MalformedField);
    }
    var name, value := Trim(line[..k]), Trim(line[k + 1..]);
    if name == [] {
      return Bad(EmptyFieldName);
    }
    if !IsToken(name) {
      return Bad(InvalidFieldName);
    }
    var hit := ScanValue(a, "header:" + Canonical(name), value);
    if hit.Some? {
      return Bad(Blocked(hit.value));
    }
    return Good(Some((Canonical(name), value)));
  }

  /** The header loop and the trailer loop; they differ in the limit and in the forbidden names. */
  method ReadFieldMap(reader: Reader, a: A.Automaton, kind: FieldKind) returns (r: Result<FieldMap>)
    requires reader.Valid() && a.Valid()
    modifies reader
    ensures reader.Valid()
    ensures match ReadFields(a.rules, old(reader.Rest()), reader.end, kind, 0, map[])
            case Ok(fields, rest) => r == Good(fields) && reader.Rest() == rest
            case Err(e) => r == Bad(e)
  {
    ghost var goal := ReadFields(a.rules, reader.Rest(), reader.end, kind, 0, map[]);
    var fields: FieldMap := map[];
    var i := 0;
    while true
      invariant reader.Valid() && 0 <= i <= MaxFields(kind)
      invariant ReadFields(a.rules, reader.Rest(), reader.end, kind, i, fields) == goal
      decreases MaxFields(kind) - i
    {
      if i >= MaxFields(kind) {
        return Bad(TooManyFields(kind));
      }
      var line := ReadHeaderLine(reader, a);
      if line.Bad? {
        return Bad(line.error);
      }
      if line.value.None? {
        return Good(fields);
      }
      var (name, value) := line.value.value;
      if kind.Trailers? && IsForbiddenTrailer(name) {
        return Bad(ForbiddenTrailer(name));
      }
      if name in fields {
        return Bad(DuplicateField(kind, name));
      }
      fields := fields[name := value];
      i := i + 1;
    }
  }

  // ---- Bodies. ----

  lemma TakeMore(s: Bytes, o: nat, n: nat)
    requires o <= |s| && n <= |s[o..]|
    ensures s[..o] + s[o..][..n] == s[..o + n] && s[o..][n..] == s[o + n..]
  {
  }

  /** Reads one piece into `body` and feeds it to the scanner. */
  method ReadPiece(reader: Reader, body: array<char>, offset: nat, scanner: Scanner, ghost s: Bytes)
    returns (n: nat, hit: Option<Match>, readErr: Option<ReadEnd>)
    requires reader.Valid() && scanner.Valid() && offset < body.Length && offset <= |s|
    requires body[..offset] == s[..offset] == scanner.raw && reader.Rest() == s[offset..]
    modifies reader, body, scanner
    ensures reader.Valid() && offset + n <= body.Length && offset + n <= |s|
    ensures body[..offset + n] == s[..offset + n] && reader.Rest() == s[offset + n..]
    ensures hit == Report(ScanOpen(scanner.automaton.rules, s[..offset + n]), "body")
    ensures hit == None ==> scanner.Valid() && scanner.raw == s[..offset + n]
    ensures n == 0 ==> readErr == Some(reader.end) && offset == |s|
    ensures n > 0 && readErr.Some? ==> readErr == Some(Eof) && reader.end.Eof? && offset + n == |s|
  {
    n, readErr := reader.Read(body, offset);
    TakeMore(s, offset, n);
    hit := None;
    if n > 0 {
      assert body[offset..offset + n] == s[offset..][..n] by {
        assert body[offset..offset + n] == body[..offset + n][offset..];
        assert s[offset..][..n] == s[..offset + n][offset..];
      }
      hit := scanner.Feed("body", body[offset..offset + n]);
    }
  }

  /** Fills `body` from the reader in whatever pieces it delivers, scanning each piece as it arrives. */
  method FillBody(reader: Reader, body: array<char>, scanner: Scanner) returns (err: Option<ParseError>)
    requires reader.Valid() && scanner.Valid() && scanner.raw == [] && body.Length > 0
    modifies reader, body, scanner
    ensures reader.Valid()
    ensures err.Some? ==>
              ReadSized(scanner.automaton.rules, old(reader.Rest()), body.Length, reader.end) == Err(err.value)
    ensures err.None? ==>
              && body.Length <= |old(reader.Rest())|
              && body[..] == old(reader.Rest())[..body.Length] && reader.Rest() == old(reader.Rest())[body.Length..]
              && scanner.Valid() && scanner.raw == body[..]
  {
    hide Scanner.Valid, ReadSized;
    ghost var s := reader.Rest();
    ghost var rules := scanner.automaton.rules;
    var offset := 0;
    while offset < body.Length
      invariant reader.Valid() && offset <= body.Length && offset <= |s|
      invariant body[..offset] == s[..offset] == scanner.raw && reader.Rest() == s[offset..]
      invariant scanner.Valid()
      decreases body.Length - offset
    {
      var n, hit, readErr := ReadPiece(reader, body, offset, scanner, s);
      if hit.Some? {
        SizedReport(rules, s, offset + n, body.Length, reader.end);
        return Some(Blocked(hit.value));
      }
      offset := offset + n;
      if readErr.Some? {
        if readErr.value.Eof? && offset == body.Length {
          break;
        }
        SizedIncomplete(rules, s, offset, body.Length, reader.end);
        return Some(if readErr.value.Eof? then IncompleteBody else ReadFailed);
      }
    }
    assert body[..] == body[..offset];
    return None;
  }

  method ReadBody(reader: Reader, body: array<char>, a: A.Automaton) returns (err: Option<ParseError>)
    requires reader.Valid() && a.Valid() && body.Length > 0
    modifies reader, body
    ensures reader.Valid()
    ensures match ReadSized(a.rules, old(reader.Rest()), body.Length, reader.end)
            case Ok(data, rest) => err == None && body[..] == data && reader.Rest() == rest
            case Err(e) => err == Some(e)
  {
    var scanner := new Scanner(a);
    err := FillBody(reader, body, scanner);
    if err.Some? {
      return;
    }
    var hit := scanner.Finish("body");
    if hit.Some? {
      return Some(Blocked(hit.value));
    }
  }

  /** The stream broke off before the body was complete and nothing was reported. */
  lemma SizedIncomplete(rules: seq<Rule>, s: Bytes, k: nat, n: nat, end: ReadEnd)
    requires k == |s| < n && ScanOpen(rules, s[..k]).None?
    ensures ReadSized(rules, s, n, end) == Err(if end.Eof? then IncompleteBody else ReadFailed)
  {
    assert s[..k] == s;
  }

  /** A report on a delivered prefix is the report of the sized body, complete or not. */
  lemma SizedReport(rules: seq<Rule>, s: Bytes, k: nat, n: nat, end: ReadEnd)
    requires k <= |s| && k <= n && ScanOpen(rules, s[..k]).Some?
    ensures ReadSized(rules, s, n, end) == Err(Blocked(Report(ScanOpen(rules, s[..k]), "body").value))
  {
    var whole := if |s| >= n then s[..n] else s;
    assert whole == s[..k] + whole[k..];
    EarlyReportIsFinal(rules, s[..k], whole[k..]);
  }

  method ParseChunkSize(line: Bytes) returns (r: Result<nat>)
    ensures r == ChunkSize(line)
  {
    var sizeText := Trim(line[..IndexOf(line, ';')]);
    if sizeText == "" {
      return Bad(EmptyChunkSize);
    }
    var size: nat := 0;
    for i := 0 to |sizeText|
      invariant ScanHex(sizeText[..i]) == Good(size) && size <= MAX_BODY
    {
      assert Init(sizeText[..i + 1]) == sizeText[..i];
      if !IsHex(sizeText[i]) {
        ScanHexStops(sizeText, i + 1);
        return Bad(InvalidChunkSize);
      }
      var value := HexDigit(sizeText[i]);
      if size > (MAX_BODY - value) / 16 {
        ScanHexStops(sizeText, i + 1);
        return Bad(ChunkSizeTooLarge);
      }
      size := size * 16 + value;
    }
    assert sizeText[..|sizeText|] == sizeText;
    return Good(size);
  }

  lemma {:induction false} ScanHexStops(s: Bytes, k: nat)
    requires k <= |s| && ScanHex(s[..k]).Bad?
    ensures ScanHex(s) == ScanHex(s[..k])
  {
    if k < |s| {
      assert Init(s)[..k] == s[..k];
      ScanHexStops(Init(s), k);
    } else {
      assert s[..k] == s;
    }
  }

  method ReadTerminator(reader: Reader) returns (err: Option<ParseError>)
    requires reader.Valid()
    modifies reader
    ensures reader.Valid()
    ensures match ReadCRLF(old(reader.Rest()), reader.end)
            case Ok(_, rest) => err == None && reader.Rest() == rest
            case Err(e) => err == Some(e)
  {
    var first := reader.ReadByte();
    if first.None? {
      return Some(IncompleteTerminator(reader.end));
    }
    var second := reader.ReadByte();
    if second.None? {
      return Some(IncompleteTerminator(reader.end));
    }
    if first.value != '\r' || second.value != '\n' {
      return Some(BadTerminator);
    }
    return None;
  }

  /** One chunk: its data in full, then the scan, then the terminator. */
  method ReadChunk(reader: Reader, size: nat, body: Bytes, scanner: Scanner) returns (r: Result<Bytes>)
    requires reader.Valid() && scanner.Valid() && scanner.raw == body
    modifies reader, scanner
    ensures reader.Valid()
    ensures match TakeChunk(scanner.automaton.rules, old(reader.Rest()), size, body, reader.end)
            case Ok(longer, rest) => r == Good(longer) && reader.Rest() == rest && scanner.Valid() && scanner.raw == longer
            case Err(e) => r == Bad(e)
  {
    if |body| + size > MAX_BODY {
      return Bad(BodyTooLarge);
    }
    var data, ok, cleanEnd := reader.ReadFull(size);
    if !ok {
      return Bad(IncompleteChunk(cleanEnd));
    }
    var hit := scanner.Feed("body", data);
    if hit.Some? {
      return Bad(Blocked(hit.value));
    }
    var err := ReadTerminator(reader);
    if err.Some? {
      return Bad(err.value);
    }
    return Good(body + data);
  }

  method ReadSizeLine(reader: Reader) returns (r: Result<nat>)
    requires reader.Valid()
    modifies reader
    ensures reader.Valid()
    ensures match ReadChunkSize(old(reader.Rest()), reader.end)
            case Ok(size, rest) => r == Good(size) && reader.Rest() == rest
            case Err(e) => r == Bad(e)
  {
    var sizeLine := ReadLineLimited(reader, MAX_HEADER_LINE);
    if sizeLine.Bad? {
      return Bad(sizeLine.error);
    }
    r := ParseChunkSize(sizeLine.value);
  }

  /** After the last chunk: the verdict on the whole body, then the trailers. */
  method EndChunks(reader: Reader, body: Bytes, scanner: Scanner) returns (r: Result<(Bytes, FieldMap)>)
    requires reader.Valid() && scanner.Valid() && scanner.raw == body
    modifies reader, scanner
    ensures reader.Valid()
    ensures match FinishChunks(scanner.automaton.rules, old(reader.Rest()), body, reader.end)
            case Ok(decoded, rest) => r == Good(decoded) && reader.Rest() == rest
            case Err(e) => r == Bad(e)
  {
    var hit := scanner.Finish("body");
    if hit.Some? {
      return Bad(Blocked(hit.value));
    }
    var trailers := ReadFieldMap(reader, scanner.automaton, Trailers);
    if trailers.Bad? {
      return Bad(trailers.error);
    }
    return Good((body, trailers.value));
  }

  /** Decodes chunks into one body under one scanner; the running total never exceeds 1 MiB. */
  method ReadChunkedBody(reader: Reader, a: A.Automaton) returns (r: Result<(Bytes, FieldMap)>)
    requires reader.Valid() && a.Valid()
    modifies reader
    ensures reader.Valid()
    ensures match ReadChunks(a.rules, old(reader.Rest()), reader.end, [])
            case Ok(decoded, rest) => r == Good(decoded) && reader.Rest() == rest
            case Err(e) => r == Bad(e)
  {
    hide Scanner.Valid, ReadChunkSize, TakeChunk, FinishChunks;
    ghost var goal := ReadChunks(a.rules, reader.Rest(), reader.end, []);
    var body: Bytes := [];
    var scanner := new Scanner(a);
    while true
      invariant reader.Valid() && |body| <= MAX_BODY
      invariant ReadChunks(a.rules, reader.Rest(), reader.end, body) == goal
      invariant fresh(scanner) && scanner.Valid() && scanner.automaton == a && scanner.raw == body
      decreases |reader.Rest()|
    {
      var chunkSize := ReadSizeLine(reader);
      if chunkSize.Bad? {
        return Bad(chunkSize.error);
      }
      if chunkSize.value == 0 {
        r := EndChunks(reader, body, scanner);
        return;
      }
      var chunk := ReadChunk(reader, chunkSize.value, body, scanner);
      if chunk.Bad? {
        return Bad(chunk.error);
      }
      body := chunk.value;
    }
  }

  // ---- The whole request. ----

  /** One request from the front of the reader; on success exactly its own bytes are consumed. */
  method ParseRequest(reader: Reader, a: A.Automaton) returns (r: Result<Request>)
    requires reader.Valid() && a.Valid()
    modifies reader
    ensures reader.Valid()
    ensures match Parse(a.rules, old(reader.Rest()), reader.end)
            case Ok(request, rest) => r == Good(request) && reader.Rest() == rest
            case Err(e) => r == Bad(e)
  {
    hide RequestLine, ReadFields, ReadChunks, ReadSized;
    var first := ReadRequestLine(reader, a);
    if first.Bad? {
      return Bad(first.error);
    }
    var (verb, path, version) := first.value;
    if version != "HTTP/1.1" {
      return Bad(UnsupportedVersion);
    }
    var fields := ReadFieldMap(reader, a, Headers);
    if fields.Bad? {
      return Bad(fields.error);
    }
    var headers := fields.value;
    var request := Request(verb, path, version, headers, map[], []);

    var contentLength := 0;
    if "Transfer-Encoding" in headers {
      if "Content-Length" in headers {
        return Bad(LengthWithTransferEncoding);
      }
      if !IsChunked(headers["Transfer-Encoding"]) {
        return Bad(UnsupportedTransferEncoding);
      }
    }
    if "Host" !in headers || Trim(headers["Host"]) == "" {
      return Bad(MissingHost);
    }
    if HasHostSpace(headers["Host"]) {
      return Bad(InvalidHost);
    }
    if "Content-Length" in headers {
      var text := headers["Content-Length"];
      if !IsDecimal(text) || DecimalValue(text) > MAX_INT {
        return Bad(InvalidContentLength);
      }
      if DecimalValue(text) > MAX_BODY {
        return Bad(BodyTooLarge);
      }
      contentLength := DecimalValue(text);
    }
    if "Transfer-Encoding" in headers && IsChunked(headers["Transfer-Encoding"]) {
      var decoded := ReadChunkedBody(reader, a);
      if decoded.Bad? {
        return Bad(decoded.error);
      }
      request := request.(body := decoded.value.0, trailers := decoded.value.1);
    } else if contentLength > 0 {
      var body := new char[contentLength];
      var err := ReadBody(reader, body, a);
      if err.Some? {
        return Bad(err.value);
      }
      request := request.(body := body[..]);
    }
    return Good(request);
  }
}
