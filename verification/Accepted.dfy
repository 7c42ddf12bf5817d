/** What every accepted request satisfies: inspected in full, and framed without ambiguity (http/parser.go:29-310). */
module Accepted {
  import opened Text
  import opened Blanks
  import opened HttpText
  import opened Rules
  import opened Scanner
  import opened Http
  import opened FramingRules
  import opened Percent
  import opened Forms
  import opened Wire
  import N = Normalize

  /** No rule's non-empty normal form occurs in the normalized text. */
  ghost predicate Clean(rules: seq<Rule>, x: Bytes) {
    HasNone(rules, N.Norm(x))
  }

  lemma QuietIsClean(rules: seq<Rule>, x: Bytes)
    requires Scan(rules, x) == None
    ensures Clean(rules, x)
  {
    FiresExactly(rules, x);
  }

  lemma QuietValueIsClean(rules: seq<Rule>, x: Bytes)
    requires QuietValue(rules, x)
    ensures Clean(rules, x)
  {
    if x == [] {
      assert N.Norm([]) == [];
    } else {
      QuietIsClean(rules, x);
    }
  }

  lemma QuietTargetIsClean(rules: seq<Rule>, target: Bytes)
    requires QuietTarget(rules, target)
    ensures forall t :: Spells(target, t) ==> Clean(rules, t)
    ensures Malformed(target) ==> Clean(rules, target)
  {
    hide Scan, Clean;
    forall t | Spells(target, t) ensures Clean(rules, t) {
      QuietIsClean(rules, t);
    }
    if Malformed(target) {
      QuietIsClean(rules, target);
    }
  }

  lemma FoldedTokenChar(c: char)
    requires IsTokenChar(c)
    ensures IsTokenChar(Upper(c)) && IsTokenChar(Lower(c))
    ensures Upper(Upper(c)) == Upper(c) && Lower(Lower(c)) == Lower(c)
    ensures (Upper(c) == '-' <==> c == '-') && (Lower(c) == '-' <==> c == '-')
  {
  }

  lemma CanonicalIsCanonical(n: Bytes)
    requires IsToken(n)
    ensures IsToken(Canonical(n)) && Canonical(Canonical(n)) == Canonical(n)
  {
    hide IsTokenChar, Upper, Lower;
    var c := Canonical(n);
    forall k | 0 <= k < |n| ensures IsTokenChar(c[k]) && (c[k] == '-' <==> n[k] == '-') {
      FoldedTokenChar(n[k]);
    }
    forall k | 0 <= k < |n| ensures Canonical(c)[k] == c[k] {
      FoldedTokenChar(n[k]);
      if k > 0 {
        assert c[k - 1] == '-' <==> n[k - 1] == '-';
      }
    }
  }

  /** Names are canonical tokens, values are inspected. */
  ghost predicate CleanFields(rules: seq<Rule>, m: FieldMap) {
    forall n :: n in m ==> IsToken(n) && Canonical(n) == n && Clean(rules, m[n])
  }

  lemma FieldIsClean(rules: seq<Rule>, kind: FieldKind, f: FieldForm)
    requires IsField(rules, kind, f)
    ensures IsToken(NameOf(f)) && Canonical(NameOf(f)) == NameOf(f) && Clean(rules, f.value)
  {
    CanonicalIsCanonical(f.name);
    QuietValueIsClean(rules, f.value);
  }

  lemma {:induction false} FieldMapIsClean(rules: seq<Rule>, kind: FieldKind, fs: seq<FieldForm>)
    requires forall i :: 0 <= i < |fs| ==> IsField(rules, kind, fs[i])
    ensures CleanFields(rules, FieldMapOf(fs)) && |FieldMapOf(fs)| <= |fs|
    ensures kind.Trailers? ==> MayTrail(FieldMapOf(fs))
  {
    hide Clean, LineEnd, IsFieldForm, NameOf;
    if fs != [] {
      assert IsField(rules, kind, Last(fs));
      FieldMapIsClean(rules, kind, Init(fs));
      FieldIsClean(rules, kind, Last(fs));
    }
  }

  /** None of the fields that must not be trailers. */
  predicate MayTrail(m: FieldMap) {
    "Content-Length" !in m && "Host" !in m && "Transfer-Encoding" !in m && "Trailer" !in m
  }

  /** Exactly one framing, and a body of exactly that shape. */
  predicate FramedAsSaid(q: Request) {
    var te, cl := "Transfer-Encoding" in q.headers, "Content-Length" in q.headers;
    && !(te && cl)
    && (te ==> SpellsChunked(Trim(q.headers["Transfer-Encoding"])))
    && (cl ==> IsDecimal(q.headers["Content-Length"]) && |q.body| == DecimalValue(q.headers["Content-Length"]))
    && (!te ==> q.trailers == map[])
    && (!te && !cl ==> q.body == [])
  }

  /** Every accepted request is clean and unambiguous. A target is clean in what it means, or as it is when it cannot
    * be decoded. */
  lemma AcceptedIsClean(rules: seq<Rule>, s: Bytes, end: ReadEnd)
    requires Parse(rules, s, end).Ok?
    ensures var q := Parse(rules, s, end).value;
            && IsToken(q.verb) && q.path != [] && q.version == "HTTP/1.1"
            && ((q.path == "*" && q.verb == "OPTIONS") || (q.path[0] == '/' && !HasControl(q.path)))
            && (forall t :: Spells(q.path, t) ==> Clean(rules, t)) && (Malformed(q.path) ==> Clean(rules, q.path))
            && CleanFields(rules, q.headers) && CleanFields(rules, q.trailers)
            && Clean(rules, q.body)
            && |q.headers| <= 63 && |q.trailers| <= 15 && |q.body| <= 0x10_0000
            && MayTrail(q.trailers)
            && "Host" in q.headers && PassesAsHost(q.headers["Host"])
            && FramedAsSaid(q)
  {
    hide LineEnd, Clean, Parse, QuietTarget, IsToken, HasControl, PassesAsHost, SpellsChunked, IsField, Scan, WireBytes, MayTrail,
         CleanFields, NoBlank, AllBlank;
    var w := ParseSound(rules, s, end);
    var q := Parse(rules, s, end).value;
    QuietTargetIsClean(rules, q.path);
    FieldMapIsClean(rules, Headers, w.fields);
    BodyIsClean(rules, w.body);
  }

  lemma BodyIsClean(rules: seq<Rule>, b: WireBody)
    requires IsBody(rules, b)
    ensures var (body, trailers) := Decoded(b);
            && Clean(rules, body) && CleanFields(rules, trailers) && |trailers| <= 15 && MayTrail(trailers)
            && (b.Empty? ==> body == []) && (b.Chunks? ==> |body| <= MAX_BODY) && (!b.Chunks? ==> trailers == map[])
  {
    hide Scan, Clean, IsField;
    match b
    case Empty =>
      QuietValueIsClean(rules, []);
    case Sized(data) =>
      QuietIsClean(rules, data);
    case Chunks(chunks, _, trailers) =>
      QuietIsClean(rules, DataOf(chunks));
      FieldMapIsClean(rules, Trailers, trailers);
  }

  // ---- Spelling makes no difference to what is found. ----

  lemma CaseOfTokenChar(a: char, b: char)
    requires IsTokenChar(a) && IsTokenChar(b)
    ensures Lower(a) == Lower(b) <==> Upper(a) == Upper(b)
    ensures Lower(a) == Lower(b) ==> (a == '-' <==> b == '-')
    ensures Upper(a) == Lower(b) ==> Lower(a) == Lower(b)
  {
  }

  /** Two names are one field exactly when they differ at most in case. */
  lemma CanonicalIgnoresCase(a: Bytes, b: Bytes)
    requires IsToken(a) && IsToken(b)
    ensures Canonical(a) == Canonical(b) <==> LowerAll(a) == LowerAll(b)
  {
    hide IsTokenChar, Upper, Lower;
    if LowerAll(a) == LowerAll(b) {
      forall k | 0 <= k < |a| ensures Canonical(a)[k] == Canonical(b)[k] {
        assert LowerAll(a)[k] == LowerAll(b)[k];
        CaseOfTokenChar(a[k], b[k]);
        if k > 0 {
          assert LowerAll(a)[k - 1] == LowerAll(b)[k - 1];
          CaseOfTokenChar(a[k - 1], b[k - 1]);
        }
      }
    }
    if Canonical(a) == Canonical(b) {
      assert |a| == |b|;
      SameCanonicalSameLetters(a, b, |a|);
      assert a[..|a|] == a && b[..|b|] == b;
    }
  }

  lemma {:induction false} SameCanonicalSameLetters(a: Bytes, b: Bytes, n: nat)
    requires IsToken(a) && IsToken(b) && n <= |a| == |b| && Canonical(a) == Canonical(b)
    ensures LowerAll(a[..n]) == LowerAll(b[..n])
  {
    hide IsTokenChar, Upper, Lower;
    if n > 0 {
      var k := n - 1;
      SameCanonicalSameLetters(a, b, k);
      assert Canonical(a)[k] == Canonical(b)[k];
      CaseOfTokenChar(a[k], b[k]);
      CaseOfTokenChar(b[k], a[k]);
      if k > 0 {
        assert LowerAll(a[..k])[k - 1] == LowerAll(b[..k])[k - 1];
        CaseOfTokenChar(a[k - 1], b[k - 1]);
      }
      assert Lower(a[k]) == Lower(b[k]);
      forall j | 0 <= j < n ensures LowerAll(a[..n])[j] == LowerAll(b[..n])[j] {
        if j < k {
          assert LowerAll(a[..k])[j] == LowerAll(b[..k])[j];
        }
      }
    }
  }

  /** Percent-encoding cannot hide a target from the firewall: every spelling is judged as what it means. */
  lemma SpellingDoesNotHide(rules: seq<Rule>, target: Bytes, meant: Bytes)
    requires target != [] && Spells(target, meant)
    ensures ScanField(rules, "uri", target) == Report(Scan(rules, meant), "uri")
  {
    TargetIsJudged(rules, target);
  }

  /** Nor can a spelling that cannot be decoded: such a target is judged as it is. */
  lemma MalformedIsJudgedRaw(rules: seq<Rule>, target: Bytes)
    requires Malformed(target)
    ensures ScanField(rules, "uri", target) == Report(Scan(rules, target), "uri")
  {
    TargetIsJudged(rules, target);
  }

  // ---- Framing makes no difference to what is found. ----

  /** Chunks carrying a body on which a rule fires are refused with that rule, wherever the chunks are cut. */
  lemma {:induction false} ChunksAreBlocked(rules: seq<Rule>, body: Bytes, b: WireBody, rest: Bytes, end: ReadEnd)
    requires b.Chunks? && IsLastChunk(b.last) && forall i :: 0 <= i < |b.chunks| ==> IsChunk(b.chunks[i])
    requires |body| + |DataOf(b.chunks)| <= MAX_BODY
    requires ScanOpen(rules, body) == None && Scan(rules, body + DataOf(b.chunks)).Some?
    ensures ReadChunks(rules, BodyBytes(b) + rest, end, body)
            == Err(Blocked(Report(Scan(rules, body + DataOf(b.chunks)), "body").value))
    decreases |b.chunks|
  {
    hide ReadChunkSize, LineEnd, IsSizeForm, SizeLine, ReadFields, Scan, ScanOpen;
    var s := BodyBytes(b) + rest;
    if b.chunks == [] {
      assert body + DataOf(b.chunks) == body;
      Assoc(SizeLine(b.last) + CRLF, FieldBytes(b.trailers), rest);
      SizeIsRead(b.last, 0, FieldBytes(b.trailers) + rest, end);
    } else {
      var c, tail := b.chunks[0], Chunks(b.chunks[1..], b.last, b.trailers);
      assert b.chunks == [c] + tail.chunks;
      ConsChunk(c, tail);
      AssocChunk(SizeLine(c.size), c.data, BodyBytes(tail), rest);
      var next := CRLF + (BodyBytes(tail) + rest);
      var data := c.data + next;
      SizeIsRead(c.size, |c.data|, data, end);
      Assoc(body, c.data, DataOf(tail.chunks));
      if ScanOpen(rules, body + c.data) == None {
        TakeChunkComplete(rules, c.data, body, end, BodyBytes(tail) + rest);
        ChunksAreBlocked(rules, body + c.data, tail, rest, end);
      } else {
        assert data[..|c.data|] == c.data;
        EarlyReportIsFinal(rules, body + c.data, DataOf(tail.chunks));
      }
    }
  }

  /** The same bytes sent with a length or in chunks, cut anywhere, give the same body or the same blocking rule. */
  lemma FramingIndependence(rules: seq<Rule>, body: Bytes, b: WireBody, rest: Bytes, rest': Bytes, end: ReadEnd)
    requires b.Chunks? && IsLastChunk(b.last) && forall i :: 0 <= i < |b.chunks| ==> IsChunk(b.chunks[i])
    requires AreFields(rules, Trailers, b.trailers) && DataOf(b.chunks) == body && |body| <= MAX_BODY
    ensures var sized := ReadSized(rules, body + rest, |body|, end);
            var chunked := ReadChunks(rules, BodyBytes(b) + rest', end, []);
            match Scan(rules, body)
            case None => sized == Ok(body, rest) && chunked == Ok((body, FieldMapOf(b.trailers)), rest')
            case Some(rule) => sized == Err(Blocked(Match(rule.pattern, "body", rule.id)))
                               && chunked == Err(Blocked(Match(rule.pattern, "body", rule.id)))
  {
    assert (body + rest)[..|body|] == body && (body + rest)[|body|..] == rest;
    assert [] + DataOf(b.chunks) == body;
    match Scan(rules, body)
    case None =>
      ReadChunksComplete(rules, [], b, rest', end);
    case Some(_) =>
      assert N.Emitted([]) == [];
      ChunksAreBlocked(rules, [], b, rest', end);
  }
}
