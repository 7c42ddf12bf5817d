/** What the request parser answers for a given stream (http/parser.go), as functions of the bytes still unread. */
module Http {
  import opened Text
  import opened Blanks
  import opened HttpText
  import opened Rules
  import opened Scanner

  const MAX_REQUEST_LINE: nat := 4096
  const MAX_HEADER_LINE: nat := 8192
  const MAX_BODY: nat := 0x10_0000
  const MAX_INT: nat := 0x7FFF_FFFF_FFFF_FFFF

  /** How the byte stream ends: at end of file, or with some other error (a timeout, a reset). */
  datatype ReadEnd = Eof | Failure

  datatype FieldKind = Headers | Trailers

  function MaxFields(kind: FieldKind): nat {
    if kind.Headers? then 64 else 16
  }

  datatype ParseError =
    | EndOfStream | ReadFailed | IncompleteLine | LineTooLong
    | MalformedRequestLine | InvalidMethod | UnsupportedTarget | UnsupportedVersion
    | Blocked(hit: Match)
    | FoldedLine | MalformedField | EmptyFieldName | InvalidFieldName
    | TooManyFields(kind: FieldKind) | DuplicateField(kind: FieldKind, name: Bytes) | ForbiddenTrailer(name: Bytes)
    | LengthWithTransferEncoding | UnsupportedTransferEncoding | MissingHost | InvalidHost
    | InvalidContentLength | BodyTooLarge | IncompleteBody
    | EmptyChunkSize | InvalidChunkSize | ChunkSizeTooLarge
    | IncompleteChunk(cleanEnd: bool) | IncompleteTerminator(cause: ReadEnd) | BadTerminator

  /** errors.Is(err, io.EOF). */
  predicate IsEof(e: ParseError) {
    e.EndOfStream? || e.IncompleteBody? || (e.IncompleteChunk? && e.cleanEnd) || (e.IncompleteTerminator? && e.cause.Eof?)
  }

  function ReadError(end: ReadEnd): ParseError {
    if end.Eof? then EndOfStream else ReadFailed
  }

  /** A value and the bytes left unread, or the error. */
  datatype Outcome<T> = Ok(value: T, rest: Bytes) | Err(error: ParseError)

  type FieldMap = map<Bytes, Bytes>

  datatype Request = Request(verb: Bytes, path: Bytes, version: Bytes, headers: FieldMap, trailers: FieldMap, body: Bytes)

  // ---- Lines. ----

  function ReadLine(s: Bytes, max: nat, end: ReadEnd): (r: Outcome<Bytes>)
    ensures r.Ok? ==> |r.rest| < |s|
  {
    var k := LineEnd(s);
    if k.Some? && k.value + 2 <= max then Ok(s[..k.value], s[k.value + 2..])
    else if |s| > max then Err(LineTooLong)
    else if end.Failure? then Err(ReadFailed)
    else if s != [] then Err(IncompleteLine)
    else Err(EndOfStream)
  }

  // ---- The firewall. ----

  /** The bytes of a field that are inspected: the target is percent-decoded when that succeeds. */
  function Inspected(field: string, value: Bytes): Bytes {
    if field == "uri" && PathUnescape(value).Some? then PathUnescape(value).value else value
  }

  function ScanField(rules: seq<Rule>, field: string, value: Bytes): Option<Match> {
    if value == [] then None else Report(Scan(rules, Inspected(field, value)), field)
  }

  // ---- The request line and the fields. ----

  datatype Result<T> = Good(value: T) | Bad(error: ParseError)

  /** Method, target and version. */
  function RequestLine(rules: seq<Rule>, line: Bytes): Result<(Bytes, Bytes, Bytes)> {
    var parts := WordsOf(line);
    if |parts| != 3 then Bad(MalformedRequestLine)
    else if !IsToken(parts[0]) then Bad(InvalidMethod)
    else if !IsOriginForm(parts[0], parts[1]) then Bad(UnsupportedTarget)
    else
      var hit := ScanField(rules, "uri", parts[1]);
      if hit.Some? then Bad(Blocked(hit.value)) else Good((parts[0], parts[1], parts[2]))
  }

  /** The canonical name and the trimmed value of a non-empty field line. */
  function FieldLine(rules: seq<Rule>, line: Bytes): Result<(Bytes, Bytes)>
    requires line != []
  {
    if line[0] == ' ' || line[0] == '\t' then Bad(FoldedLine)
    else
      var k := IndexOf(line, ':');
      if k == |line| then Bad(MalformedField)
      else
        var name, value := Trim(line[..k]), Trim(line[k + 1..]);
        if name == [] then Bad(EmptyFieldName)
        else if !IsToken(name) then Bad(InvalidFieldName)
        else
          var hit := ScanField(rules, "header:" + Canonical(name), value);
          if hit.Some? then Bad(Blocked(hit.value)) else Good((Canonical(name), value))
  }

  /** Field lines up to the blank line; the blank line counts against the limit too. */
  function ReadFields(rules: seq<Rule>, s: Bytes, end: ReadEnd, kind: FieldKind, i: nat, acc: FieldMap): (r: Outcome<FieldMap>)
    ensures r.Ok? ==> |r.rest| < |s|
    decreases |s|
  {
    if i >= MaxFields(kind) then Err(TooManyFields(kind))
    else
      match ReadLine(s, MAX_HEADER_LINE, end)
      case Err(e) => Err(e)
      case Ok(line, rest) =>
        if line == [] then Ok(acc, rest)
        else
          match FieldLine(rules, line)
          case Bad(e) => Err(e)
          case Good((name, value)) =>
            if kind.Trailers? && IsForbiddenTrailer(name) then Err(ForbiddenTrailer(name))
            else if name in acc then Err(DuplicateField(kind, name))
            else ReadFields(rules, rest, end, kind, i + 1, acc[name := value])
  }

  // ---- Bodies. ----

  /** A body of known length. A pattern seen before the stream breaks off is still reported. */
  function ReadSized(rules: seq<Rule>, s: Bytes, n: nat, end: ReadEnd): Outcome<Bytes> {
    if |s| >= n then
      var hit := Report(Scan(rules, s[..n]), "body");
      if hit.Some? then Err(Blocked(hit.value)) else Ok(s[..n], s[n..])
    else
      var hit := Report(ScanOpen(rules, s), "body");
      if hit.Some? then Err(Blocked(hit.value))
      else if end.Eof? then Err(IncompleteBody) else Err(ReadFailed)
  }

  /** Hexadecimal digits with a running bound, most significant first. */
  function ScanHex(s: Bytes): Result<nat> {
    if s == [] then Good(0)
    else
      match ScanHex(Init(s))
      case Bad(e) => Bad(e)
      case Good(size) =>
        if !IsHex(Last(s)) then Bad(InvalidChunkSize)
        else if size > (MAX_BODY - HexDigit(Last(s))) / 16 then Bad(ChunkSizeTooLarge)
        else Good(size * 16 + HexDigit(Last(s)))
  }

  /** The size text of a chunk line: what precedes an extension, trimmed. */
  function SizeText(line: Bytes): Bytes {
    Trim(line[..IndexOf(line, ';')])
  }

  function ChunkSize(line: Bytes): Result<nat> {
    if SizeText(line) == [] then Bad(EmptyChunkSize) else ScanHex(SizeText(line))
  }

  function ReadCRLF(s: Bytes, end: ReadEnd): Outcome<()> {
    if |s| < 2 then Err(IncompleteTerminator(end))
    else if s[0] != '\r' || s[1] != '\n' then Err(BadTerminator)
    else Ok((), s[2..])
  }

  /** The data of one chunk and its terminator, appended to the body so far. */
  function TakeChunk(rules: seq<Rule>, data: Bytes, size: nat, body: Bytes, end: ReadEnd): (r: Outcome<Bytes>)
    ensures r.Ok? ==> |r.rest| <= |data| && |r.value| <= MAX_BODY
  {
    if |body| + size > MAX_BODY then Err(BodyTooLarge)
    else if |data| < size then Err(IncompleteChunk(data == [] && end.Eof?))
    else
      var hit := Report(ScanOpen(rules, body + data[..size]), "body");
      if hit.Some? then Err(Blocked(hit.value))
      else
        match ReadCRLF(data[size..], end)
        case Err(e) => Err(e)
        case Ok(_, rest) => Ok(body + data[..size], rest)
  }

  /** What follows the last chunk: the verdict on the whole body, then the trailers. */
  function FinishChunks(rules: seq<Rule>, data: Bytes, body: Bytes, end: ReadEnd): Outcome<(Bytes, FieldMap)> {
    var hit := Report(Scan(rules, body), "body");
    if hit.Some? then Err(Blocked(hit.value))
    else
      match ReadFields(rules, data, end, Trailers, 0, map[])
      case Err(e) => Err(e)
      case Ok(trailers, rest) => Ok((body, trailers), rest)
  }

  /** A chunk-size line. */
  function ReadChunkSize(s: Bytes, end: ReadEnd): (r: Outcome<nat>)
    ensures r.Ok? ==> |r.rest| < |s|
  {
    match ReadLine(s, MAX_HEADER_LINE, end)
    case Err(e) => Err(e)
    case Ok(line, rest) =>
      match ChunkSize(line)
      case Bad(e) => Err(e)
      case Good(size) => Ok(size, rest)
  }

  function ReadChunks(rules: seq<Rule>, s: Bytes, end: ReadEnd, body: Bytes): Outcome<(Bytes, FieldMap)>
    decreases |s|
  {
    match ReadChunkSize(s, end)
    case Err(e) => Err(e)
    case Ok(size, data) =>
      if size == 0 then FinishChunks(rules, data, body, end)
      else
        match TakeChunk(rules, data, size, body, end)
        case Err(e) => Err(e)
        case Ok(longer, rest) => ReadChunks(rules, rest, end, longer)
  }

  // ---- The whole request. ----

  datatype Framing = NoBody | Length(n: nat) | Chunked

  predicate HasHostSpace(host: Bytes) {
    exists k :: 0 <= k < |host| && host[k] in " \t\r\n"
  }

  /** How the headers frame the body, or why they are refused; checked in this order. */
  function FramingOf(headers: FieldMap): Result<Framing> {
    var te, cl := "Transfer-Encoding" in headers, "Content-Length" in headers;
    if te && cl then Bad(LengthWithTransferEncoding)
    else if te && !IsChunked(headers["Transfer-Encoding"]) then Bad(UnsupportedTransferEncoding)
    else if "Host" !in headers || Trim(headers["Host"]) == [] then Bad(MissingHost)
    else if HasHostSpace(headers["Host"]) then Bad(InvalidHost)
    else if te then Good(Chunked)
    else if !cl then Good(NoBody)
    else
      var text := headers["Content-Length"];
      if !IsDecimal(text) || DecimalValue(text) > MAX_INT then Bad(InvalidContentLength)
      else if DecimalValue(text) > MAX_BODY then Bad(BodyTooLarge)
      else if DecimalValue(text) == 0 then Good(NoBody)
      else Good(Length(DecimalValue(text)))
  }

  function ReadBodyAs(rules: seq<Rule>, s: Bytes, end: ReadEnd, framing: Framing): Outcome<(Bytes, FieldMap)> {
    match framing
    case NoBody => Ok(([], map[]), s)
    case Length(n) =>
      (match ReadSized(rules, s, n, end)
       case Err(e) => Err(e)
       case Ok(body, rest) => Ok((body, map[]), rest))
    case Chunked => ReadChunks(rules, s, end, [])
  }

  function Parse(rules: seq<Rule>, s: Bytes, end: ReadEnd): Outcome<Request> {
    match ReadLine(s, MAX_REQUEST_LINE, end)
    case Err(e) => Err(e)
    case Ok(line, s1) =>
      match RequestLine(rules, line)
      case Bad(e) => Err(e)
      case Good((verb, path, version)) =>
        if version != "HTTP/1.1" then Err(UnsupportedVersion)
        else
          match ReadFields(rules, s1, end, Headers, 0, map[])
          case Err(e) => Err(e)
          case Ok(headers, s2) =>
            match FramingOf(headers)
            case Bad(e) => Err(e)
            case Good(framing) =>
              match ReadBodyAs(rules, s2, end, framing)
              case Err(e) => Err(e)
              case Ok((body, trailers), rest) =>
                Ok(Request(verb, path, version, headers, trailers, body), rest)
  }

  // ---- The chunk-size arithmetic. ----

  lemma AllHexSnoc(s: Bytes)
    requires s != []
    ensures AllHex(s) <==> AllHex(Init(s)) && IsHex(Last(s))
  {
    forall k | 0 <= k < |s| - 1 ensures IsHex(s[k]) <==> IsHex(Init(s)[k]) {
    }
  }

  /** The running bound accepts exactly the numerals whose value fits, and the value it returns is theirs. */
  lemma {:induction false} ScanHexExactly(s: Bytes)
    ensures ScanHex(s).Good? <==> AllHex(s) && HexValue(s) <= MAX_BODY
    ensures ScanHex(s).Good? ==> ScanHex(s).value == HexValue(s)
  {
    if s != [] {
      ScanHexExactly(Init(s));
      AllHexSnoc(s);
    }
  }

  /** A chunk line is accepted iff its size text is a non-empty hexadecimal numeral of value at most 1 MiB. */
  lemma ChunkSizeExactly(line: Bytes, n: nat)
    ensures ChunkSize(line) == Good(n) <==>
            SizeText(line) != [] && AllHex(SizeText(line)) && HexValue(SizeText(line)) == n <= MAX_BODY
  {
    ScanHexExactly(SizeText(line));
  }
}
