/** The lines of a request as forms that are rendered by concatenation, and the theorems that the parser's line
  * functions accept exactly these forms (http/parser.go:120-196, 312-335). */
module Forms {
  import opened Text
  import opened Blanks
  import opened HttpText
  import opened Percent
  import opened Rules
  import opened Scanner
  import opened Http

  // ---- What is inspected. ----

  /** Nothing is reported on what the target means, nor on the target itself when it cannot be decoded. */
  ghost predicate QuietTarget(rules: seq<Rule>, target: Bytes) {
    && (forall t :: Spells(target, t) ==> Scan(rules, t) == None)
    && (Malformed(target) ==> Scan(rules, target) == None)
  }

  predicate QuietValue(rules: seq<Rule>, value: Bytes) {
    value == [] || Scan(rules, value) == None
  }

  /** A target is judged by what it means, and as it is when it cannot be decoded. */
  lemma TargetIsJudged(rules: seq<Rule>, target: Bytes)
    requires target != []
    ensures forall t :: Spells(target, t) ==> ScanField(rules, "uri", target) == Report(Scan(rules, t), "uri")
    ensures Malformed(target) ==> ScanField(rules, "uri", target) == Report(Scan(rules, target), "uri")
    ensures Malformed(target) <==> !exists t :: Spells(target, t)
  {
    hide Scan;
    UnescapeFailsExactly(target);
    forall t | Spells(target, t) ensures PathUnescape(target) == Some(t) {
      UnescapeExactly(target, t);
    }
    if PathUnescape(target).Some? {
      UnescapeExactly(target, PathUnescape(target).value);
    }
  }

  lemma TargetIsQuiet(rules: seq<Rule>, target: Bytes)
    requires target != []
    ensures ScanField(rules, "uri", target) == None <==> QuietTarget(rules, target)
  {
    hide Scan, ScanField;
    TargetIsJudged(rules, target);
  }

  /** Any other value is judged as it is; an empty one is not inspected. */
  lemma ValueIsJudged(rules: seq<Rule>, field: string, value: Bytes)
    requires field != "uri"
    ensures ScanField(rules, field, value) == if value == [] then None else Report(Scan(rules, value), field)
    ensures ScanField(rules, field, value) == None <==> QuietValue(rules, value)
  {
  }

  // ---- The request line. ----

  /** Three words: a token, a target in origin form (or an asterisk for OPTIONS) that is quiet, and a version. */
  ghost predicate IsRequestForm(rules: seq<Rule>, t: Triple) {
    HasRequestShape(t) && QuietTarget(rules, t.second)
  }

  predicate HasRequestShape(t: Triple) {
    && IsTriple(t) && IsToken(t.first)
    && ((t.second == "*" && t.first == "OPTIONS") || (t.second[0] == '/' && !HasControl(t.second)))
  }

  lemma OriginFormExactly(verb: Bytes, target: Bytes)
    requires target != []
    ensures IsOriginForm(verb, target) <==>
            (target == "*" && verb == "OPTIONS") || (target[0] == '/' && !HasControl(target))
  {
  }

  /** The request line is accepted exactly in this form. */
  lemma RequestLineExactly(rules: seq<Rule>, line: Bytes, verb: Bytes, path: Bytes, version: Bytes)
    ensures RequestLine(rules, line) == Good((verb, path, version)) <==>
            exists t: Triple :: IsRequestForm(rules, t) && TripleText(t) == line
                                && t.first == verb && t.second == path && t.third == version
  {
    hide Scan, ScanField, WordsOf, NoBlank, AllBlank, IsGap, IsTokenChar, QuietTarget, TripleText, IsOriginForm, HasControl;
    ThreeWordsExactly(line, verb, path, version);
    if path != [] {
      OriginFormExactly(verb, path);
      TargetIsQuiet(rules, path);
    }
    if RequestLine(rules, line) == Good((verb, path, version)) {
      assert WordsOf(line) == [verb, path, version];
      var t: Triple :| IsTriple(t) && TripleText(t) == line && t.first == verb && t.second == path && t.third == version;
      assert IsRequestForm(rules, t);
    }
  }

  /** A line of this shape is refused for its target exactly when a rule fires on it, with that rule. */
  lemma TargetIsBlocked(rules: seq<Rule>, t: Triple, meant: Bytes)
    requires HasRequestShape(t) && (Spells(t.second, meant) || (Malformed(t.second) && meant == t.second))
    ensures RequestLine(rules, TripleText(t)) ==
            match Scan(rules, meant)
            case Some(rule) => Bad(Blocked(Match(rule.pattern, "uri", rule.id)))
            case None => Good((t.first, t.second, t.third))
  {
    hide Scan, ScanField, WordsOf, NoBlank, AllBlank, IsGap, IsTokenChar, TripleText, IsOriginForm, HasControl, Spells, Malformed;
    TripleHasThreeWords(t);
    OriginFormExactly(t.first, t.second);
    TargetIsJudged(rules, t.second);
  }

  // ---- Field lines. ----

  datatype FieldForm = FieldForm(before: Bytes, name: Bytes, gap: Bytes, pad: Bytes, value: Bytes, after: Bytes)

  function FieldText(f: FieldForm): Bytes {
    (f.before + f.name + f.gap) + (":" + (f.pad + f.value + f.after))
  }

  /** A token, a colon and a quiet value with white space around them; the line does not start with a space or TAB. */
  predicate IsFieldForm(rules: seq<Rule>, f: FieldForm) {
    HasFieldShape(f) && QuietValue(rules, f.value)
  }

  predicate HasFieldShape(f: FieldForm) {
    && AllBlank(f.before) && AllBlank(f.gap) && AllBlank(f.pad) && AllBlank(f.after)
    && IsToken(f.name) && Front(f.value) == 0 && Back(f.value) == 0
    && FieldText(f)[0] != ' ' && FieldText(f)[0] != '\t'
  }

  /** The bytes of white space. */
  lemma {:induction false} BlankBytes(s: Bytes)
    requires AllBlank(s)
    ensures forall k :: 0 <= k < |s| ==> IsSpace(s[k]) || s[k] as int >= 0x80
  {
    if s != [] {
      var w := Front(s);
      BlankBytes(s[w..]);
      assert forall k :: w <= k < |s| ==> s[k] == s[w..][k - w];
    }
  }

  lemma TokenIsPlain(s: Bytes)
    requires IsToken(s)
    ensures AllPlain(s) && forall k :: 0 <= k < |s| ==> s[k] != ':'
  {
    forall k | 0 <= k < |s| ensures IsPlain(s[k]) && s[k] != ':' {
      assert IsTokenChar(s[k]);
    }
  }

  lemma PlainEnds(s: Bytes)
    requires AllPlain(s)
    ensures Front(s) == 0 && Back(s) == 0
  {
    if s != [] {
      assert IsPlain(s[0]) && IsPlain(Last(s));
    }
  }

  lemma ColonOf(f: FieldForm)
    requires AllBlank(f.before) && AllBlank(f.gap) && IsToken(f.name)
    ensures var k := |f.before + f.name + f.gap|;
            && IndexOf(FieldText(f), ':') == k < |FieldText(f)|
            && FieldText(f)[..k] == f.before + f.name + f.gap && FieldText(f)[k + 1..] == f.pad + f.value + f.after
  {
    var head, line := f.before + f.name + f.gap, FieldText(f);
    BlankBytes(f.before);
    BlankBytes(f.gap);
    TokenIsPlain(f.name);
    hide AllBlank, IsTokenChar;
    forall j | 0 <= j < |head| ensures line[j] != ':' {
      assert line[j] == head[j];
    }
    IndexOfFirst(line, ':', |head|);
  }

  lemma TrimToName(f: FieldForm)
    requires AllBlank(f.before) && AllBlank(f.gap) && IsToken(f.name)
    ensures Trim(f.before + f.name + f.gap) == f.name
  {
    TokenIsPlain(f.name);
    PlainEnds(f.name);
    hide AllBlank, Front, Back, IsTokenChar, Trim;
    TrimOff(f.before, f.name, f.gap, f.before + f.name + f.gap);
  }

  lemma NotTheTarget(name: Bytes)
    ensures "header:" + name != "uri"
  {
    assert ("header:" + name)[0] != "uri"[0];
  }

  /** A line of this shape is refused for its value exactly when a rule fires on it, with that rule. */
  lemma ValueIsBlocked(rules: seq<Rule>, f: FieldForm)
    requires HasFieldShape(f)
    ensures FieldLine(rules, FieldText(f)) ==
            if QuietValue(rules, f.value) then Good((Canonical(f.name), f.value))
            else Bad(Blocked(Match(Scan(rules, f.value).value.pattern, "header:" + Canonical(f.name), Scan(rules, f.value).value.id)))
  {
    hide AllBlank, Front, Back, Scan, ScanField, IsTokenChar, Trim, Canonical, FieldText, IndexOf;
    ColonOf(f);
    TrimToName(f);
    TrimOff(f.pad, f.value, f.after, f.pad + f.value + f.after);
    NotTheTarget(Canonical(f.name));
    ValueIsJudged(rules, "header:" + Canonical(f.name), f.value);
  }

  lemma FormIsRead(rules: seq<Rule>, f: FieldForm)
    requires IsFieldForm(rules, f)
    ensures FieldLine(rules, FieldText(f)) == Good((Canonical(f.name), f.value))
  {
    hide FieldLine, HasFieldShape, QuietValue, Canonical, FieldText;
    ValueIsBlocked(rules, f);
  }

  lemma FormOfLine(rules: seq<Rule>, line: Bytes) returns (f: FieldForm)
    requires line != [] && FieldLine(rules, line).Good?
    ensures IsFieldForm(rules, f) && FieldText(f) == line
    ensures FieldLine(rules, line).value == (Canonical(f.name), f.value)
  {
    hide AllBlank, Front, Back, Scan, ScanField, IsTokenChar, Trim, Canonical, IndexOf;
    var k := IndexOf(line, ':');
    var head, tail := line[..k], line[k + 1..];
    var name, value := Trim(head), Trim(tail);
    TrimExactly(head, name);
    TrimExactly(tail, value);
    var a, b :| Pads(a, name, b, head);
    var c, d :| Pads(c, value, d, tail);
    f := FieldForm(a, name, b, c, value, d);
    assert line == head + (":" + tail);
    NotTheTarget(Canonical(name));
    ValueIsJudged(rules, "header:" + Canonical(name), value);
  }

  /** A field line is accepted exactly in this form, with the canonical name and the value. */
  lemma FieldLineExactly(rules: seq<Rule>, line: Bytes, name: Bytes, value: Bytes)
    requires line != []
    ensures FieldLine(rules, line) == Good((name, value)) <==>
            exists f :: IsFieldForm(rules, f) && FieldText(f) == line && Canonical(f.name) == name && f.value == value
  {
    hide FieldLine, IsFieldForm, FieldText, Canonical;
    if FieldLine(rules, line) == Good((name, value)) {
      var f := FormOfLine(rules, line);
    }
    if f :| IsFieldForm(rules, f) && FieldText(f) == line && Canonical(f.name) == name && f.value == value {
      FormIsRead(rules, f);
    }
  }

  // ---- Chunk-size lines. ----

  datatype SizeForm = SizeForm(before: Bytes, digits: Bytes, after: Bytes, extension: Bytes)

  function SizeLine(f: SizeForm): Bytes {
    (f.before + f.digits + f.after) + f.extension
  }

  /** Hexadecimal digits of the given value with white space around them, and perhaps an extension after a semicolon. */
  predicate IsSizeForm(f: SizeForm, n: nat) {
    && AllBlank(f.before) && AllBlank(f.after) && (f.extension != [] ==> f.extension[0] == ';')
    && f.digits != [] && AllHex(f.digits) && HexValue(f.digits) == n <= 0x10_0000
  }

  lemma HexIsPlain(s: Bytes)
    requires AllHex(s)
    ensures AllPlain(s) && forall k :: 0 <= k < |s| ==> s[k] != ';'
  {
    forall k | 0 <= k < |s| ensures IsPlain(s[k]) && s[k] != ';' {
      assert IsHex(s[k]);
    }
  }

  lemma CutOff(f: SizeForm, n: nat)
    requires IsSizeForm(f, n)
    ensures SizeLine(f)[..IndexOf(SizeLine(f), ';')] == f.before + f.digits + f.after
  {
    var head, line := f.before + f.digits + f.after, SizeLine(f);
    BlankBytes(f.before);
    BlankBytes(f.after);
    HexIsPlain(f.digits);
    hide AllBlank, AllHex, HexValue;
    forall j | 0 <= j < |head| ensures line[j] != ';' {
      assert line[j] == head[j];
    }
    if f.extension != [] {
      IndexOfFirst(line, ';', |head|);
    } else {
      assert line == head;
    }
  }

  /** A chunk-size line is accepted with a size exactly in this form. */
  lemma SizeLineExactly(line: Bytes, n: nat)
    ensures ChunkSize(line) == Good(n) <==> exists f :: IsSizeForm(f, n) && SizeLine(f) == line
  {
    hide AllBlank, AllHex, HexValue, Trim, Front, Back, IndexOf;
    var k := IndexOf(line, ';');
    if ChunkSize(line) == Good(n) {
      var t := SizeText(line);
      ChunkSizeExactly(line, n);
      TrimExactly(line[..k], t);
      var a, b :| Pads(a, t, b, line[..k]);
      var f := SizeForm(a, t, b, line[k..]);
      assert line == line[..k] + line[k..];
      assert IsSizeForm(f, n);
    }
    if f :| IsSizeForm(f, n) && SizeLine(f) == line {
      CutOff(f, n);
      HexIsPlain(f.digits);
      PlainEnds(f.digits);
      TrimOff(f.before, f.digits, f.after, line[..k]);
      ChunkSizeExactly(line, n);
    }
  }

  // ---- Tokens. ----

  /** The bytes of a token are the visible ASCII characters without the delimiters (section 5.6.2 of RFC 9110). */
  lemma TokenCharExactly(c: char)
    ensures IsTokenChar(c) <==> 0x21 <= c as int <= 0x7E && c !in "\"(),/:;<=>?@[\\]{}"
  {
  }

  lemma DigitExactly(c: char)
    ensures IsDigit(c) <==> c in "0123456789"
  {
  }
}
