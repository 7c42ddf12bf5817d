/** Messages that are accepted: with every part a message can have, and where the documentation says they are not. */
module Witnesses {
  import opened Text
  import opened Blanks
  import opened HttpText
  import opened Rules
  import opened Http
  import opened FramingRules
  import opened Percent
  import opened Forms
  import opened Wire
  import opened RoundTrip
  import N = Normalize

  // ---- Texts on which nothing is reported. ----

  lemma {:induction false} SqueezeAddsNothing(s: Bytes, c: char)
    requires c !in s && c != ' ' && forall x :: Lower(x) == c ==> x == c
    ensures c !in N.Squeeze(s)
  {
    if s != [] {
      SqueezeAddsNothing(Init(s), c);
    }
  }

  lemma {:induction false} StripAddsNothing(x: Bytes, c: char)
    requires c !in x && c != ' '
    ensures c !in N.StripComments(x)
    decreases |x|
  {
    if |x| >= 2 && x[0] == '/' && x[1] == '*' {
      if N.AfterClose(x[2..]).Some? {
        AfterCloseAddsNothing(x[2..], c);
        StripAddsNothing(N.AfterClose(x[2..]).value, c);
      }
    } else if x != [] {
      StripAddsNothing(x[1..], c);
    }
  }

  lemma {:induction false} AfterCloseAddsNothing(x: Bytes, c: char)
    requires c !in x && N.AfterClose(x).Some?
    ensures c !in N.AfterClose(x).value
  {
    if !(x[0] == '*' && x[1] == '/') {
      AfterCloseAddsNothing(x[1..], c);
    }
  }

  const TAG_RULE: seq<Rule> := [Rule("tag", "<script")]

  lemma TagKey()
    ensures Key(TAG_RULE, 0) == "<script"
  {
    N.NormalIsFixed("<script");
  }

  lemma NoTag(t: Bytes)
    requires '<' !in t
    ensures !Occurs("<script", t)
  {
    forall k ensures !OccursAt("<script", t, k) {
      if 0 <= k <= |t| - 7 {
        assert t[k..k + 7][0] == t[k];
      }
    }
  }

  /** A rule list with one rule that looks for a tag says nothing about texts without a tag opening. */
  lemma QuietWithoutTag(x: Bytes)
    requires '<' !in x
    ensures Scan(TAG_RULE, x) == None
  {
    hide N.Norm, Key, Occurs, VisitsRoot, FirstMatch;
    assert '<' !in N.Norm(x) by {
      StripAddsNothing(x, '<');
      SqueezeAddsNothing(N.StripComments(x), '<');
      OnNorm(x);
    }
    TagKey();
    NoTag(N.Norm(x));
    ReportsExactly(TAG_RULE, N.Norm(x));
  }

  lemma OnNorm(x: Bytes)
    ensures N.Norm(x) == N.Squeeze(N.StripComments(x))
  {
  }

  lemma QuietWithoutRules(x: Bytes)
    ensures Scan([], x) == None
  {
    ReportsExactly([], N.Norm(x));
  }

  // ---- A request with any Host value. ----

  function PlainGet(host: Bytes): Message {
    Message("GET", "/", [("Host", host)], Nothing)
  }

  lemma RootIsTarget()
    ensures IsWord("/") && !HasControl("/")
  {
    PlainHasNoBlank("/");
  }

  /** The target of the requests below means itself. */
  lemma RootIsQuiet(rules: seq<Rule>)
    requires Scan(rules, "/") == None
    ensures QuietTarget(rules, "/") && IsWord("/") && !HasControl("/")
  {
    hide Scan, PathUnescape, HasControl, IsWord, Spells, Malformed;
    RootIsTarget();
    RootDecodes();
    UnescapeFailsExactly("/");
    forall t | Spells("/", t) ensures t == "/" {
      UnescapeExactly("/", t);
    }
  }

  lemma RootDecodes()
    ensures PathUnescape("/") == Some("/")
  {
    SpelledDecodes([Literal('/')]);
    assert [Literal('/')][1..] == [];
    assert Spelled([Literal('/')]) == ['/'] + [] == "/" && Meant([Literal('/')]) == ['/'] + [] == "/";
  }

  lemma PlainGetHeaders(host: Bytes)
    requires Trim(host) == host && NoCR(host) && |host| <= MAX_HEADER_LINE - 8
    ensures SendableLine([], PlainGet(host)) && Sendable([], Headers, SentFields(PlainGet(host)))
  {
    hide Scan, Trim, QuietTarget, HasControl, NoBlank;
    QuietWithoutRules(host);
    QuietWithoutRules("/");
    RootIsQuiet([]);
    HostName();
    assert IsToken("GET");
  }

  lemma PlainGetIsSendable(host: Bytes)
    requires Trim(host) == host && PassesAsHost(host) && |host| <= MAX_HEADER_LINE - 8
    ensures SendableMessage([], PlainGet(host))
  {
    hide Scan, Trim, SendableLine, Sendable;
    PlainGetHeaders(host);
    QuietWithoutRules([]);
    assert HostField(PlainGet(host).fields[0]);
  }

  /** Of requests that differ in the Host value, exactly those with a passing value are accepted. */
  lemma HostDecides(host: Bytes, rest: Bytes, end: ReadEnd)
    requires Trim(host) == host && NoCR(host) && |host| <= MAX_HEADER_LINE - 8
    ensures Parse([], WireBytes(WireOf(PlainGet(host))) + rest, end).Ok? <==> PassesAsHost(host)
  {
    var m := PlainGet(host);
    hide Trim, Scan, SendableMessage, SendableLine, Sendable, WireBytes, Parse, FormsOf, PassesAsHost, IsRequestForm, AreFields,
         TripleText, LineEnd, FramingOf;
    if PassesAsHost(host) {
      PlainGetIsSendable(host);
      ReadsBack([], m, rest, end);
    } else {
      PlainGetHeaders(host);
      RequestLineReadsBack([], m);
      SendableReadsBack([], Headers, SentFields(m));
      OnlyHost(host);
      BadFramingIsRefused([], WireOf(m), rest, end);
    }
  }

  lemma OnlyHost(host: Bytes)
    ensures MapOf(SentFields(PlainGet(host))) == map["Host" := host]
  {
    assert Init([("Host", host)]) == [];
  }

  /** A Host value that is documented as refused and accepted. */
  lemma ControlHostIsAccepted(rest: Bytes, end: ReadEnd)
    ensures !DocumentedHost([1 as char])
    ensures Parse([], WireBytes(WireOf(PlainGet([1 as char]))) + rest, end)
            == Ok(RequestOf(PlainGet([1 as char])), rest)
  {
    var host := [1 as char];
    PlainTrims(host);
    hide Trim, Parse, WireBytes, SendableMessage;
    PlainGetIsSendable(host);
    ReadsBack([], PlainGet(host), rest, end);
  }

  // ---- A request with any transfer coding. ----

  /** Two chunks, one with an extension, and a trailer, under a rule. */
  function ChunkedPost(coding: Bytes): Message {
    Message("POST", "/", [("Host", "a")], Pieces(coding, [Part("ab", ";x=y"), Part("c", [])], [("Check", "d")]))
  }

  lemma HostName()
    ensures IsToken("Host") && Canonical("Host") == "Host"
  {
  }

  lemma CheckName()
    ensures IsToken("Check") && Canonical("Check") == "Check"
  {
  }

  lemma CodingName()
    ensures IsToken("Transfer-Encoding") && Canonical("Transfer-Encoding") == "Transfer-Encoding"
  {
  }

  lemma FieldIsSendable(kind: FieldKind, f: Field)
    requires IsToken(f.0) && Canonical(f.0) == f.0
    requires kind.Trailers? ==> f.0 !in {"Content-Length", "Host", "Transfer-Encoding", "Trailer"}
    requires Trim(f.1) == f.1 && NoCR(f.1) && '<' !in f.1 && |f.0| + 2 + |f.1| + 2 <= MAX_HEADER_LINE
    ensures SendableField(TAG_RULE, kind, f)
  {
    hide Scan, Trim, IsToken, Canonical, NoCR;
    QuietWithoutTag(f.1);
  }

  lemma PostIsToken()
    ensures IsToken("POST")
  {
  }

  lemma ChunkedPostLine(coding: Bytes)
    ensures SendableLine(TAG_RULE, ChunkedPost(coding))
  {
    hide Scan, NoBlank, IsToken, QuietTarget, HasControl;
    QuietWithoutTag("/");
    RootIsQuiet(TAG_RULE);
    PostIsToken();
  }

  lemma TwoFields(rules: seq<Rule>, f: Field, g: Field)
    requires SendableField(rules, Headers, f) && SendableField(rules, Headers, g) && |f.0| != |g.0|
    ensures Sendable(rules, Headers, [f, g])
  {
    hide SendableField;
  }

  lemma HostIsSendable()
    ensures SendableField(TAG_RULE, Headers, ("Host", "a"))
  {
    PlainTrims("a");
    HostName();
    FieldIsSendable(Headers, ("Host", "a"));
  }

  lemma CodingIsSendable(coding: Bytes)
    requires Trim(coding) == coding && NoCR(coding) && '<' !in coding && |coding| <= MAX_HEADER_LINE - 21
    ensures SendableField(TAG_RULE, Headers, ("Transfer-Encoding", coding))
  {
    hide Trim, NoCR, Canonical, IsToken, SendableField;
    CodingName();
    FieldIsSendable(Headers, ("Transfer-Encoding", coding));
  }

  lemma SentHeaders(coding: Bytes)
    ensures SentFields(ChunkedPost(coding)) == [("Host", "a"), ("Transfer-Encoding", coding)]
  {
  }

  lemma ChunkedPostHeaders(coding: Bytes)
    requires Trim(coding) == coding && NoCR(coding) && '<' !in coding && |coding| <= MAX_HEADER_LINE - 21
    ensures Sendable(TAG_RULE, Headers, SentFields(ChunkedPost(coding)))
  {
    hide *;
    HostIsSendable();
    CodingIsSendable(coding);
    TwoFields(TAG_RULE, ("Host", "a"), ("Transfer-Encoding", coding));
    SentHeaders(coding);
  }

  lemma ChunkedPostTrailers()
    ensures Sendable(TAG_RULE, Trailers, [("Check", "d")])
  {
    PlainTrims("d");
    CheckName();
    hide SendableField;
    FieldIsSendable(Trailers, ("Check", "d"));
  }

  lemma ChunkedPostIsSendable(coding: Bytes)
    requires Trim(coding) == coding && SpellsChunked(coding)
    ensures SendableMessage(TAG_RULE, ChunkedPost(coding))
  {
    hide Scan, Sendable, SendableLine, Trim, BodyOf, SendablePart, SpellsChunked;
    SpellingIsClean(coding);
    ChunkedPostLine(coding);
    ChunkedPostHeaders(coding);
    ChunkedPostTrailers();
    ThreeBytes(coding);
    QuietWithoutTag("abc");
    assert HostField(ChunkedPost(coding).fields[0]);
  }

  lemma ThreeBytes(coding: Bytes)
    ensures BodyOf(ChunkedPost(coding).content) == "abc"
    ensures forall p :: p in ChunkedPost(coding).content.parts ==> SendablePart(p)
  {
    var parts := ChunkedPost(coding).content.parts;
    assert parts[1..] == [Part("c", [])];
    assert DataIn(parts[1..]) == "c" + [];
  }

  lemma SpellingIsClean(t: Bytes)
    requires SpellsChunked(t)
    ensures NoCR(t) && '<' !in t && |t| <= 9
  {
    if LowerAll(t) == "chunked" {
      forall k | 0 <= k < |t| ensures t[k] != '\r' && t[k] != '<' {
        assert Lower(t[k]) == "chunked"[k];
      }
    } else {
      forall k | 0 <= k < |t| ensures t[k] != '\r' && t[k] != '<' {
        if k < 4 {
          assert Lower(t[k]) == LowerAll(t[..4])[k] == "chun"[k];
        } else if k < 7 {
          assert t[k] == t[4..][k - 4];
        } else {
          assert Lower(t[k]) == LowerAll(t[7..])[k - 7] == "ed"[k - 7];
        }
      }
    }
  }

  /** Of requests that differ in the transfer coding, exactly those that spell chunked are accepted. */
  lemma CodingDecides(coding: Bytes, rest: Bytes, end: ReadEnd)
    requires Trim(coding) == coding && NoCR(coding) && '<' !in coding && |coding| <= MAX_HEADER_LINE - 21
    ensures Parse(TAG_RULE, WireBytes(WireOf(ChunkedPost(coding))) + rest, end).Ok? <==> SpellsChunked(coding)
  {
    var m := ChunkedPost(coding);
    hide Trim, Scan, SendableMessage, SendableLine, Sendable, WireBytes, Parse, FormsOf, PassesAsHost, IsRequestForm, AreFields,
         TripleText, LineEnd, FramingOf, SpellsChunked, ChunksOf;
    if SpellsChunked(coding) {
      ChunkedPostIsSendable(coding);
      ReadsBack(TAG_RULE, m, rest, end);
    } else {
      ChunkedPostLine(coding);
      ChunkedPostHeaders(coding);
      RequestLineReadsBack(TAG_RULE, m);
      SendableReadsBack(TAG_RULE, Headers, SentFields(m));
      HostAndCoding(coding);
      var headers := MapOf(SentFields(m));
      forall f ensures !Frames(headers, f) {
        if Frames(headers, f) {
          OnlyChunkedWithCoding(headers, f);
        }
      }
      BadFramingIsRefused(TAG_RULE, WireOf(m), rest, end);
    }
  }

  lemma OnlyChunkedWithCoding(headers: FieldMap, f: Framing)
    requires Frames(headers, f) && "Transfer-Encoding" in headers
    ensures SpellsChunked(Trim(headers["Transfer-Encoding"]))
  {
  }

  lemma HostAndCoding(coding: Bytes)
    ensures MapOf(SentFields(ChunkedPost(coding))) == map["Host" := "a", "Transfer-Encoding" := coding]
  {
    assert Init([("Host", "a")] + [("Transfer-Encoding", coding)]) == [("Host", "a")];
    assert Init([("Host", "a")]) == [];
  }

  const KELVIN_SPELLING: Bytes := "chun" + [0xE2 as char, 0x84 as char, 0xAA as char] + "ed"

  /** A transfer coding that is documented as refused and accepted. */
  lemma KelvinSpellingIsAccepted(rest: Bytes, end: ReadEnd)
    ensures KELVIN_SPELLING != "chunked"
    ensures Parse(TAG_RULE, WireBytes(WireOf(ChunkedPost(KELVIN_SPELLING))) + rest, end)
            == Ok(RequestOf(ChunkedPost(KELVIN_SPELLING)), rest)
  {
    var t := KELVIN_SPELLING;
    assert t[..4] == "chun" && t[4..][..3] == [0xE2 as char, 0x84 as char, 0xAA as char] && t[7..] == "ed";
    assert LowerAll("chun") == "chun" && LowerAll("ed") == "ed";
    assert Front(t) == 0 && Back(t) == 0;
    hide Parse, WireBytes, SendableMessage;
    ChunkedPostIsSendable(t);
    ReadsBack(TAG_RULE, ChunkedPost(t), rest, end);
  }
}
