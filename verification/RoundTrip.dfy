/** Writing canonical requests and reading them back from one reader, back to back (http/parser.go:29-118). */
module RoundTrip {
  import opened Text
  import opened Blanks
  import opened HttpText
  import opened Rules
  import opened Http
  import opened FramingRules
  import opened Forms
  import opened Wire
  import opened Percent

  type Field = (Bytes, Bytes)

  /** The data of one chunk, and what is written behind its size. */
  datatype Part = Part(data: Bytes, extension: Bytes)

  /** How a message carries its body: not at all, with a length, or under a transfer coding, in pieces followed by
    * trailers. */
  datatype Content =
    | Nothing
    | Whole(data: Bytes)
    | Pieces(coding: Bytes, parts: seq<Part>, trailers: seq<Field>)

  datatype Message = Message(verb: Bytes, path: Bytes, fields: seq<Field>, content: Content)

  // ---- The writer. ----

  function DecimalText(n: nat): Bytes {
    if n == 0 then "0" else Decimal(n)
  }

  function HexText(n: nat): Bytes {
    if n < 16 then [HexLower(n)] else HexText(n / 16) + [HexLower(n % 16)]
  }

  /** A field as it is written: the name, a colon, a space and the value. */
  function FormOf(f: Field): FieldForm {
    FieldForm([], f.0, [], " ", f.1, [])
  }

  function FormsOf(fields: seq<Field>): (r: seq<FieldForm>)
    ensures |r| == |fields| && forall i :: 0 <= i < |fields| ==> r[i] == FormOf(fields[i])
  {
    seq(|fields|, i requires 0 <= i < |fields| => FormOf(fields[i]))
  }

  /** The fields as sent, the framing field last. */
  function SentFields(m: Message): seq<Field> {
    match m.content
    case Nothing => m.fields
    case Whole(data) => m.fields + [("Content-Length", DecimalText(|data|))]
    case Pieces(coding, _, _) => m.fields + [("Transfer-Encoding", coding)]
  }

  function SizeOf(n: nat, extension: Bytes): SizeForm {
    SizeForm([], HexText(n), [], extension)
  }

  function ChunksOf(parts: seq<Part>): (r: seq<Chunk>)
    ensures |r| == |parts|
    ensures forall i :: 0 <= i < |parts| ==> r[i] == Chunk(SizeOf(|parts[i].data|, parts[i].extension), parts[i].data)
  {
    seq(|parts|, i requires 0 <= i < |parts| => Chunk(SizeOf(|parts[i].data|, parts[i].extension), parts[i].data))
  }

  function WireOf(m: Message): WireRequest {
    WireRequest(Triple([], m.verb, " ", m.path, " ", "HTTP/1.1", []), FormsOf(SentFields(m)),
                match m.content
                case Nothing => Empty
                case Whole(data) => if data == [] then Empty else Sized(data)
                case Pieces(_, parts, trailers) => Chunks(ChunksOf(parts), SizeOf(0, []), FormsOf(trailers)))
  }

  function DataIn(parts: seq<Part>): Bytes {
    if parts == [] then [] else parts[0].data + DataIn(parts[1..])
  }

  function MapOf(fields: seq<Field>): FieldMap {
    if fields == [] then map[] else MapOf(Init(fields))[Last(fields).0 := Last(fields).1]
  }

  function BodyOf(c: Content): Bytes {
    match c case Nothing => [] case Whole(data) => data case Pieces(_, parts, _) => DataIn(parts)
  }

  /** The request a message stands for. */
  function RequestOf(m: Message): Request {
    Request(m.verb, m.path, "HTTP/1.1", MapOf(SentFields(m)),
            if m.content.Pieces? then MapOf(m.content.trailers) else map[], BodyOf(m.content))
  }

  // ---- Which messages may be sent. ----

  predicate Sendable(rules: seq<Rule>, kind: FieldKind, fields: seq<Field>) {
    && |fields| < MaxFields(kind)
    && (forall i :: 0 <= i < |fields| ==> SendableField(rules, kind, fields[i]))
    && (forall i, j :: 0 <= i < j < |fields| ==> fields[i].0 != fields[j].0)
  }

  predicate SendableField(rules: seq<Rule>, kind: FieldKind, f: Field) {
    && IsToken(f.0) && Canonical(f.0) == f.0
    && (kind.Trailers? ==> f.0 !in {"Content-Length", "Host", "Transfer-Encoding", "Trailer"})
    && Trim(f.1) == f.1 && NoCR(f.1) && |f.0| + 2 + |f.1| + 2 <= MAX_HEADER_LINE
    && QuietValue(rules, f.1)
  }

  predicate NoCR(s: Bytes) {
    forall k :: 0 <= k < |s| ==> s[k] != '\r'
  }

  ghost predicate SendableLine(rules: seq<Rule>, m: Message) {
    && IsToken(m.verb) && IsWord(m.path) && QuietTarget(rules, m.path)
    && ((m.path == "*" && m.verb == "OPTIONS") || (m.path[0] == '/' && !HasControl(m.path)))
    && |m.verb| + |m.path| + 10 + 2 <= MAX_REQUEST_LINE
  }

  /** A chunk has data; its extension, if any, starts with a semicolon and leaves room for the size. */
  predicate SendablePart(p: Part) {
    p.data != [] && NoCR(p.extension) && |p.extension| + 8 <= MAX_HEADER_LINE && (p.extension != [] ==> p.extension[0] == ';')
  }

  /** A canonical, clean message within the limits; the framing names are left to the writer. */
  ghost predicate SendableMessage(rules: seq<Rule>, m: Message) {
    && SendableLine(rules, m)
    && (forall i :: 0 <= i < |m.fields| ==> m.fields[i].0 != "Content-Length" && m.fields[i].0 != "Transfer-Encoding")
    && Sendable(rules, Headers, SentFields(m))
    && (exists i :: 0 <= i < |m.fields| && HostField(m.fields[i]))
    && Scan(rules, BodyOf(m.content)) == None && |BodyOf(m.content)| <= MAX_BODY
    && (m.content.Pieces? ==> SpellsChunked(m.content.coding) && Sendable(rules, Trailers, m.content.trailers)
                              && forall i :: 0 <= i < |m.content.parts| ==> SendablePart(m.content.parts[i]))
  }

  predicate HostField(f: Field) {
    f.0 == "Host" && PassesAsHost(f.1)
  }

  // ---- Tokens and lines. ----

  lemma TokenHasNoCR(s: Bytes)
    requires IsToken(s)
    ensures NoCR(s)
  {
    TokenIsPlain(s);
    forall k | 0 <= k < |s| ensures s[k] != '\r' {
      assert IsPlain(s[k]);
    }
  }

  lemma {:induction false} NoLineEnd(s: Bytes)
    requires NoCR(s)
    ensures LineEnd(s) == None
  {
    if |s| >= 2 {
      NoLineEnd(s[1..]);
    }
  }

  // ---- Numerals. ----

  lemma DecimalRoundTrip(n: nat)
    ensures IsDecimal(DecimalText(n)) && DecimalValue(DecimalText(n)) == n
  {
    if n > 0 {
      DecimalIs(n);
    } else {
      assert Init("0") == [];
    }
  }

  lemma {:induction false} HexRoundTrip(n: nat)
    ensures HexText(n) != [] && AllHex(HexText(n)) && HexValue(HexText(n)) == n
  {
    if n >= 16 {
      HexRoundTrip(n / 16);
      InitAppend(HexText(n / 16), HexLower(n % 16));
      AllHexSnoc(HexText(n));
    } else {
      assert Init(HexText(n)) == [];
    }
  }

  function Power16(k: nat): nat {
    if k == 0 then 1 else 16 * Power16(k - 1)
  }

  lemma {:induction false} HexLength(n: nat, k: nat)
    requires k > 0 && n < Power16(k)
    ensures |HexText(n)| <= k
  {
    if n >= 16 {
      HexLength(n / 16, k - 1);
    }
  }

  lemma HexHasNoCR(s: Bytes)
    requires AllHex(s)
    ensures NoCR(s)
  {
    forall k | 0 <= k < |s| ensures s[k] != '\r' {
      assert IsHex(s[k]);
    }
  }

  /** The written size line, with or without an extension, is one of its size. */
  lemma SizeLineRoundTrip(n: nat, extension: Bytes)
    requires n <= MAX_BODY && NoCR(extension) && |extension| + 8 <= MAX_HEADER_LINE
    requires extension != [] ==> extension[0] == ';'
    ensures IsSizeForm(SizeOf(n, extension), n) && IsLine(SizeLine(SizeOf(n, extension)), MAX_HEADER_LINE)
    ensures ChunkSize(SizeLine(SizeOf(n, extension))) == Good(n)
  {
    hide LineEnd, ChunkSize;
    var t, f := HexText(n), SizeOf(n, extension);
    HexRoundTrip(n);
    HexHasNoCR(t);
    assert Power16(6) == 16 * Power16(5) == 0x100_0000;
    HexLength(n, 6);
    assert NoCR(SizeLine(f)) && |SizeLine(f)| == |t| + |extension|;
    NoLineEnd(SizeLine(f));
    SizeLineExactly(SizeLine(f), n);
  }

  // ---- Fields. ----

  lemma FieldTextIs(f: Field)
    ensures FieldText(FormOf(f)) == f.0 + (": " + f.1)
  {
    assert ([] + f.0) + [] == f.0;
    assert ":" + ((" " + f.1) + []) == ": " + f.1;
  }

  /** The written line of a field fits and does not start with white space. */
  lemma FieldLineFits(f: Field)
    requires IsToken(f.0) && NoCR(f.1) && |f.0| + 2 + |f.1| + 2 <= MAX_HEADER_LINE
    ensures var line := FieldText(FormOf(f));
            IsLine(line, MAX_HEADER_LINE) && line[0] != ' ' && line[0] != '\t'
  {
    FieldTextIs(f);
    TokenIsPlain(f.0);
    TokenHasNoCR(f.0);
    assert IsPlain(f.0[0]);
    hide LineEnd, IsTokenChar, FieldText;
    var line := f.0 + (": " + f.1);
    assert NoCR(line) && |line| == |f.0| + 2 + |f.1|;
    NoLineEnd(line);
  }

  /** A field that has to be read back as itself. */
  lemma FormIsField(rules: seq<Rule>, kind: FieldKind, f: Field)
    requires SendableField(rules, kind, f)
    ensures IsField(rules, kind, FormOf(f)) && NameOf(FormOf(f)) == f.0
  {
    assert AllBlank(" ") && AllBlank([]);
    hide Trim, LineEnd, IsToken, QuietValue, Canonical, Back, Front, FieldText, NoCR, AllBlank;
    FieldLineFits(f);
    TrimExactly(f.1, f.1);
  }

  lemma FieldTextReadsBack(rules: seq<Rule>, kind: FieldKind, f: Field)
    requires SendableField(rules, kind, f)
    ensures FieldText(FormOf(f)) != [] && FieldLine(rules, FieldText(FormOf(f))) == Good(f)
  {
    hide SendableField, IsField, FieldLine, NameOf;
    FormIsField(rules, kind, f);
    FieldIsRead(rules, kind, FormOf(f));
  }

  lemma MapsSnoc(forms: seq<FieldForm>, fields: seq<Field>, f: Field)
    requires FieldMapOf(forms) == MapOf(fields) && NameOf(FormOf(f)) == f.0
    ensures FieldMapOf(forms + [FormOf(f)]) == MapOf(fields + [f])
  {
    hide NameOf;
    InitAppend(forms, FormOf(f));
    InitAppend(fields, f);
  }

  lemma PrefixSnoc<T>(s: seq<T>, n: nat)
    requires 0 < n <= |s|
    ensures s[..n] == s[..n - 1] + [s[n - 1]]
  {
  }

  lemma {:induction false} FieldsReadBack(fields: seq<Field>, n: nat)
    requires forall i :: 0 <= i < |fields| ==> NameOf(FormOf(fields[i])) == fields[i].0
    requires n <= |fields|
    ensures FieldMapOf(FormsOf(fields)[..n]) == MapOf(fields[..n])
  {
    var forms := FormsOf(fields);
    if n > 0 {
      FieldsReadBack(fields, n - 1);
      hide *;
      PrefixSnoc(forms, n);
      PrefixSnoc(fields, n);
      MapsSnoc(forms[..n - 1], fields[..n - 1], fields[n - 1]);
    }
  }

  lemma SendableReadsBack(rules: seq<Rule>, kind: FieldKind, fields: seq<Field>)
    requires Sendable(rules, kind, fields)
    ensures AreFields(rules, kind, FormsOf(fields)) && FieldMapOf(FormsOf(fields)) == MapOf(fields)
  {
    hide IsField, SendableField, NameOf, FormOf;
    var forms := FormsOf(fields);
    forall i | 0 <= i < |fields| ensures IsField(rules, kind, forms[i]) && NameOf(forms[i]) == fields[i].0 {
      FormIsField(rules, kind, fields[i]);
    }
    FieldsReadBack(fields, |fields|);
    assert forms[..|fields|] == forms && fields[..|fields|] == fields;
  }

  lemma {:induction false} MapOfHas(fields: seq<Field>, i: nat)
    requires i < |fields| && forall a, b :: 0 <= a < b < |fields| ==> fields[a].0 != fields[b].0
    ensures fields[i].0 in MapOf(fields) && MapOf(fields)[fields[i].0] == fields[i].1
  {
    if i < |fields| - 1 {
      MapOfHas(Init(fields), i);
    }
  }

  lemma {:induction false} MapOfOnly(fields: seq<Field>, n: Bytes)
    requires forall i :: 0 <= i < |fields| ==> fields[i].0 != n
    ensures n !in MapOf(fields)
  {
    if fields != [] {
      MapOfOnly(Init(fields), n);
    }
  }

  /** The headers of a message announce the framing that the writer uses. */
  lemma FramingReadsBack(m: Message, host: nat)
    requires host < |m.fields| && HostField(m.fields[host])
    requires forall i, j :: 0 <= i < j < |SentFields(m)| ==> SentFields(m)[i].0 != SentFields(m)[j].0
    requires forall i :: 0 <= i < |m.fields| ==> m.fields[i].0 != "Content-Length" && m.fields[i].0 != "Transfer-Encoding"
    requires |BodyOf(m.content)| <= MAX_BODY
    requires m.content.Pieces? ==> SpellsChunked(m.content.coding) && Trim(m.content.coding) == m.content.coding
    ensures Frames(MapOf(SentFields(m)), FramingBy(WireOf(m).body))
  {
    hide SpellsChunked, MapOf, Trim, PassesAsHost, DecimalText, DecimalValue, ChunksOf, FormsOf;
    var sent := SentFields(m);
    assert sent[host] == m.fields[host];
    MapOfHas(sent, host);
    match m.content
    case Nothing =>
      MapOfOnly(sent, "Content-Length");
      MapOfOnly(sent, "Transfer-Encoding");
    case Whole(data) =>
      MapOfHas(sent, |m.fields|);
      MapOfOnly(sent, "Transfer-Encoding");
      DecimalRoundTrip(|data|);
    case Pieces(_, _, _) =>
      MapOfHas(sent, |m.fields|);
      MapOfOnly(sent, "Content-Length");
  }

  lemma {:induction false} ChunksOfData(parts: seq<Part>)
    ensures DataOf(ChunksOf(parts)) == DataIn(parts)
  {
    if parts != [] {
      ChunksOfData(parts[1..]);
      assert ChunksOf(parts)[1..] == ChunksOf(parts[1..]);
    }
  }

  lemma {:induction false} PartIsShort(parts: seq<Part>, i: nat)
    requires i < |parts|
    ensures |parts[i].data| <= |DataIn(parts)|
  {
    if i > 0 {
      PartIsShort(parts[1..], i - 1);
    }
  }

  lemma PiecesReadBack(parts: seq<Part>)
    requires (forall i :: 0 <= i < |parts| ==> SendablePart(parts[i])) && |DataIn(parts)| <= MAX_BODY
    ensures forall i :: 0 <= i < |parts| ==> IsChunk(ChunksOf(parts)[i])
    ensures DataOf(ChunksOf(parts)) == DataIn(parts) && IsLastChunk(SizeOf(0, []))
  {
    hide LineEnd, SizeLine, SizeOf, IsSizeForm;
    ChunksOfData(parts);
    forall i | 0 <= i < |parts| ensures IsChunk(ChunksOf(parts)[i]) {
      PartIsShort(parts, i);
      SizeLineRoundTrip(|parts[i].data|, parts[i].extension);
    }
    SizeLineRoundTrip(0, []);
  }

  lemma BodyReadsBack(rules: seq<Rule>, m: Message)
    requires Scan(rules, BodyOf(m.content)) == None && |BodyOf(m.content)| <= MAX_BODY
    requires m.content.Pieces? ==> Sendable(rules, Trailers, m.content.trailers)
    requires m.content.Pieces? ==> forall i :: 0 <= i < |m.content.parts| ==> SendablePart(m.content.parts[i])
    ensures IsBody(rules, WireOf(m).body)
    ensures Decoded(WireOf(m).body) == (RequestOf(m).body, RequestOf(m).trailers)
  {
    hide Scan, IsChunk, IsLastChunk, AreFields, SentFields, Sendable, FieldMapOf, MapOf, DataOf, ChunksOf, FormsOf, SendablePart;
    if m.content.Pieces? {
      PiecesReadBack(m.content.parts);
      SendableReadsBack(rules, Trailers, m.content.trailers);
    }
  }

  lemma VersionWord()
    ensures IsWord("HTTP/1.1") && NoCR("HTTP/1.1")
  {
    PlainHasNoBlank("HTTP/1.1");
  }

  lemma {:induction false} NoBlankNoCR(s: Bytes)
    requires NoBlank(s)
    ensures NoCR(s)
  {
    if s != [] {
      NoBlankNoCR(s[1..]);
      assert forall k :: 0 < k < |s| ==> s[k] == s[1..][k - 1];
    }
  }

  lemma OneSpace()
    ensures IsGap(" ") && AllBlank([])
  {
  }

  lemma RequestLineReadsBack(rules: seq<Rule>, m: Message)
    requires SendableLine(rules, m)
    ensures IsRequestForm(rules, WireOf(m).line) && IsLine(TripleText(WireOf(m).line), MAX_REQUEST_LINE)
    ensures RequestLine(rules, TripleText(WireOf(m).line)) == Good((m.verb, m.path, "HTTP/1.1"))
  {
    hide QuietTarget, LineEnd, FormsOf, SentFields, NoBlank, AllBlank, IsGap, IsTokenChar, HasControl, RequestLine, ChunksOf;
    var t := WireOf(m).line;
    TokenIsPlain(m.verb);
    PlainHasNoBlank(m.verb);
    TokenHasNoCR(m.verb);
    NoBlankNoCR(m.path);
    VersionWord();
    OneSpace();
    var line := m.verb + " " + m.path + " HTTP/1.1";
    assert TripleText(t) == line;
    assert NoCR(line);
    NoLineEnd(line);
    RequestLineExactly(rules, line, m.verb, m.path, "HTTP/1.1");
  }

  /** A sendable message, followed by anything, is read back as the request it stands for; the rest is untouched. */
  lemma ReadsBack(rules: seq<Rule>, m: Message, rest: Bytes, end: ReadEnd)
    requires SendableMessage(rules, m)
    ensures Parse(rules, WireBytes(WireOf(m)) + rest, end) == Ok(RequestOf(m), rest)
  {
    hide Scan, AreFields, Frames, LineEnd, IsRequestForm, TripleText, SpellsChunked, SendableLine, SendablePart, Parse, WireBytes,
         QuietValue;
    RequestLineReadsBack(rules, m);
    SendableReadsBack(rules, Headers, SentFields(m));
    BodyReadsBack(rules, m);
    var host: nat :| host < |m.fields| && HostField(m.fields[host]);
    assert m.content.Pieces? ==> SentFields(m)[|m.fields|].1 == m.content.coding;
    FramingReadsBack(m, host);
    ParseComplete(rules, WireOf(m), RequestOf(m), rest, end);
  }

  // ---- Pipelining. ----

  /** Up to `n` requests read one after the other from the front of a stream. */
  function ParseMany(rules: seq<Rule>, s: Bytes, end: ReadEnd, n: nat): Outcome<seq<Request>>
    decreases n
  {
    hide Parse;
    if n == 0 then Ok([], s)
    else
      match Parse(rules, s, end)
      case Err(e) => Err(e)
      case Ok(q, rest) =>
        match ParseMany(rules, rest, end, n - 1)
        case Err(e) => Err(e)
        case Ok(qs, rest') => Ok([q] + qs, rest')
  }

  function Stream(ms: seq<Message>): Bytes {
    if ms == [] then [] else WireBytes(WireOf(ms[0])) + Stream(ms[1..])
  }

  function RequestsOf(ms: seq<Message>): (r: seq<Request>)
    ensures |r| == |ms|
  {
    if ms == [] then [] else [RequestOf(ms[0])] + RequestsOf(ms[1..])
  }

  /** Messages sent back to back are read back in order, each exactly once, and what follows is left unread. */
  lemma {:induction false} PipelineRoundTrip(rules: seq<Rule>, ms: seq<Message>, rest: Bytes, end: ReadEnd)
    requires forall i :: 0 <= i < |ms| ==> SendableMessage(rules, ms[i])
    ensures ParseMany(rules, Stream(ms) + rest, end, |ms|) == Ok(RequestsOf(ms), rest)
  {
    hide SendableMessage, Parse, WireOf, WireBytes, RequestOf;
    if ms == [] {
      assert [] + rest == rest;
    } else {
      ReadsBack(rules, ms[0], Stream(ms[1..]) + rest, end);
      Assoc(WireBytes(WireOf(ms[0])), Stream(ms[1..]), rest);
      PipelineRoundTrip(rules, ms[1..], rest, end);
    }
  }
}
