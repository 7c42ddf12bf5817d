/** Lexical helpers of the request parser (http/parser.go) and of the library calls it makes. */
module HttpText {
  import opened Text
  import opened Blanks

  /** The index of the first `c`, or the length of `s`. */
  function IndexOf(s: Bytes, c: char): (k: nat)
    ensures k <= |s| && (k < |s| ==> s[k] == c) && (forall j :: 0 <= j < k ==> s[j] != c)
  {
    if s == [] || s[0] == c then 0 else 1 + IndexOf(s[1..], c)
  }

  lemma IndexOfFirst(s: Bytes, c: char, k: nat)
    requires k < |s| && s[k] == c && forall j :: 0 <= j < k ==> s[j] != c
    ensures IndexOf(s, c) == k
  {
  }

  /** The index of the first CR LF pair. */
  function LineEnd(s: Bytes): (k: Option<nat>)
    ensures k.Some? ==> k.value + 2 <= |s| && s[k.value] == '\r' && s[k.value + 1] == '\n'
  {
    if |s| < 2 then None
    else if s[0] == '\r' && s[1] == '\n' then Some(0)
    else match LineEnd(s[1..]) case None => None case Some(k) => Some(k + 1)
  }

  predicate IsTokenChar(b: char) {
    'A' <= b <= 'Z' || 'a' <= b <= 'z' || '0' <= b <= '9' || b in "!#$%&'*+-.^_`|~"
  }

  predicate IsToken(value: Bytes) {
    value != [] && forall k :: 0 <= k < |value| ==> IsTokenChar(value[k])
  }

  predicate IsDigit(b: char) {
    '0' <= b <= '9'
  }

  predicate IsDecimal(value: Bytes) {
    value != [] && forall k :: 0 <= k < |value| ==> IsDigit(value[k])
  }

  function DecimalValue(s: Bytes): nat
    requires forall k :: 0 <= k < |s| ==> IsDigit(s[k])
  {
    if s == [] then 0
    else
      assert IsDigit(Last(s));
      10 * DecimalValue(Init(s)) + (Last(s) as int - '0' as int)
  }

  predicate IsHex(b: char) {
    '0' <= b <= '9' || 'a' <= b <= 'f' || 'A' <= b <= 'F'
  }

  function HexDigit(b: char): (v: nat)
    requires IsHex(b)
    ensures v < 16
  {
    if '0' <= b <= '9' then b as int - '0' as int
    else if 'a' <= b <= 'f' then b as int - 'a' as int + 10
    else b as int - 'A' as int + 10
  }

  predicate AllHex(s: Bytes) {
    forall k :: 0 <= k < |s| ==> IsHex(s[k])
  }

  function HexValue(s: Bytes): nat
    requires AllHex(s)
  {
    if s == [] then 0 else 16 * HexValue(Init(s)) + HexDigit(Last(s))
  }

  /** url.PathUnescape: every percent sign must introduce two hexadecimal digits. */
  function PathUnescape(s: Bytes): Option<Bytes> {
    if s == [] then Some([])
    else if s[0] == '%' then
      if |s| < 3 || !IsHex(s[1]) || !IsHex(s[2]) then None
      else
        match PathUnescape(s[3..])
        case None => None
        case Some(rest) => Some([(16 * HexDigit(s[1]) + HexDigit(s[2])) as char] + rest)
    else
      match PathUnescape(s[1..])
      case None => None
      case Some(rest) => Some([s[0]] + rest)
  }

  function Upper(c: char): char {
    if 'a' <= c <= 'z' then (c as int - 32) as char else c
  }

  /** textproto.CanonicalMIMEHeaderKey on a token. */
  function Canonical(name: Bytes): (r: Bytes)
    ensures |r| == |name|
  {
    seq(|name|, k requires 0 <= k < |name| =>
      if k == 0 || name[k - 1] == '-' then Upper(name[k]) else Lower(name[k]))
  }

  /** Simple case folding as far as it leads to ASCII letters: the long s (C5 BF) folds to s, the Kelvin sign
    * (E2 84 AA) to k. */
  function Folded(s: Bytes): Bytes {
    if s == [] then []
    else if StartsWithKelvin(s) then ['k'] + Folded(s[3..])
    else if |s| >= 2 && s[0] as int == 0xC5 && s[1] as int == 0xBF then ['s'] + Folded(s[2..])
    else [Lower(s[0])] + Folded(s[1..])
  }

  predicate StartsWithKelvin(s: Bytes) {
    |s| >= 3 && s[0] as int == 0xE2 && s[1] as int == 0x84 && s[2] as int == 0xAA
  }

  /** strings.EqualFold of the trimmed value with "chunked". */
  predicate IsChunked(value: Bytes) {
    Folded(Trim(value)) == "chunked"
  }

  predicate IsOriginForm(method_: Bytes, target: Bytes) {
    if target == "*" then method_ == "OPTIONS"
    else target != [] && target[0] == '/' && forall k :: 0 <= k < |target| ==> 31 < target[k] as int != 127
  }

  predicate HasControl(v: Bytes) {
    exists k :: 0 <= k < |v| && (v[k] as int < 32 || v[k] as int == 127)
  }

  predicate IsForbiddenTrailer(name: Bytes) {
    name == "Content-Length" || name == "Host" || name == "Transfer-Encoding" || name == "Trailer"
  }
}
