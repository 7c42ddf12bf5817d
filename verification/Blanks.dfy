/** White space as strings.TrimSpace and strings.Fields see it: the ASCII bytes, and the other Unicode white space in
  * UTF-8. The encodings begin with bytes that occur nowhere else in a character, so every occurrence of one is white
  * space and decoding need not be modelled. */
module Blanks {
  import opened Text

  /** U+0085 and U+00A0. */
  predicate IsBlank2(a: char, b: char) {
    a as int == 0xC2 && (b as int == 0x85 || b as int == 0xA0)
  }

  /** U+1680, U+2000 to U+200A, U+2028, U+2029, U+202F, U+205F and U+3000. */
  predicate IsBlank3(a: char, b: char, c: char) {
    || (a as int == 0xE1 && b as int == 0x9A && c as int == 0x80)
    || (a as int == 0xE2 && b as int == 0x80 && (0x80 <= c as int <= 0x8A || c as int in {0xA8, 0xA9, 0xAF}))
    || (a as int == 0xE2 && b as int == 0x81 && c as int == 0x9F)
    || (a as int == 0xE3 && b as int == 0x80 && c as int == 0x80)
  }

  /** The width of the white-space character at the front of `s`, or zero. */
  function Front(s: Bytes): (w: nat)
    ensures w <= |s| && w <= 3
  {
    if |s| >= 1 && IsSpace(s[0]) then 1
    else if |s| >= 2 && IsBlank2(s[0], s[1]) then 2
    else if |s| >= 3 && IsBlank3(s[0], s[1], s[2]) then 3
    else 0
  }

  /** The width of the white-space character at the back of `s`, or zero. */
  function Back(s: Bytes): (w: nat)
    ensures w <= |s| && w <= 3
  {
    var n := |s|;
    if n >= 1 && IsSpace(s[n - 1]) then 1
    else if n >= 2 && IsBlank2(s[n - 2], s[n - 1]) then 2
    else if n >= 3 && IsBlank3(s[n - 3], s[n - 2], s[n - 1]) then 3
    else 0
  }

  /** The white-space characters of Unicode (the White_Space property). */
  predicate IsWhiteSpace(code: int) {
    || 9 <= code <= 13 || code == 0x20 || code == 0x85 || code == 0xA0 || code == 0x1680 || 0x2000 <= code <= 0x200A
    || code == 0x2028 || code == 0x2029 || code == 0x202F || code == 0x205F || code == 0x3000
  }

  /** UTF-8, up to U+FFFF (section 3 of RFC 3629). */
  function Encoded(code: int): Bytes
    requires 0 <= code < 0x1_0000
  {
    if code < 0x80 then [code as char]
    else if code < 0x800 then [(0xC0 + code / 64) as char, (0x80 + code % 64) as char]
    else [(0xE0 + code / 4096) as char, (0x80 + code / 64 % 64) as char, (0x80 + code % 64) as char]
  }

  lemma EncodedIsBlank(s: Bytes, code: int)
    requires IsWhiteSpace(code) && Encoded(code) <= s
    ensures Front(s) == |Encoded(code)|
  {
    var e := Encoded(code);
    assert forall k :: 0 <= k < |e| ==> s[k] == e[k];
    if 0x2000 <= code {
      assert code < 0x3000 ==> code / 4096 == 2;
    }
  }

  /** White space is recognised in front exactly where a white-space character is encoded there. */
  lemma FrontExactly(s: Bytes)
    ensures Front(s) > 0 <==> exists code :: IsWhiteSpace(code) && Encoded(code) <= s
  {
    if Front(s) == 1 {
      assert Encoded(s[0] as int) <= s;
    } else if Front(s) == 2 {
      var code := s[1] as int;
      assert Encoded(code) == [s[0], s[1]] && IsWhiteSpace(code);
    } else if Front(s) == 3 {
      var code := (s[0] as int - 0xE0) * 4096 + (s[1] as int - 0x80) * 64 + (s[2] as int - 0x80);
      assert Encoded(code) == [s[0], s[1], s[2]] && IsWhiteSpace(code);
    }
    if code :| IsWhiteSpace(code) && Encoded(code) <= s {
      EncodedIsBlank(s, code);
    }
  }

  function TrimLeft(s: Bytes): Bytes {
    if Front(s) > 0 then TrimLeft(s[Front(s)..]) else s
  }

  function TrimRight(s: Bytes): Bytes {
    if Back(s) > 0 then TrimRight(s[..|s| - Back(s)]) else s
  }

  /** strings.TrimSpace. */
  function Trim(s: Bytes): Bytes {
    TrimRight(TrimLeft(s))
  }

  /** The length of the part of `s` before the first white space. */
  function WordLength(s: Bytes): (k: nat)
    ensures k <= |s| && (s != [] && Front(s) == 0 ==> k > 0)
  {
    if s == [] || Front(s) > 0 then 0 else 1 + WordLength(s[1..])
  }

  lemma {:induction false} TrimLeftShrinks(s: Bytes)
    ensures |TrimLeft(s)| <= |s| && Front(TrimLeft(s)) == 0
  {
    if Front(s) > 0 {
      TrimLeftShrinks(s[Front(s)..]);
    }
  }

  /** strings.Fields. */
  function WordsOf(s: Bytes): seq<Bytes>
    decreases |s|
  {
    var t := TrimLeft(s);
    if t == [] then []
    else
      TrimLeftShrinks(s);
      [t[..WordLength(t)]] + WordsOf(t[WordLength(t)..])
  }

  // ---- What trimming leaves. ----

  /** White space and nothing else. */
  predicate AllBlank(s: Bytes) {
    s == [] || (Front(s) > 0 && AllBlank(s[Front(s)..]))
  }

  /** No white space anywhere. */
  predicate NoBlank(s: Bytes) {
    s == [] || (Front(s) == 0 && NoBlank(s[1..]))
  }

  /** A character in front is recognised without regard to what follows it. */
  lemma FrontAppend(s: Bytes, t: Bytes)
    requires Front(s) > 0
    ensures Front(s + t) == Front(s) && (s + t)[Front(s)..] == s[Front(s)..] + t
  {
  }

  lemma BackPrepend(s: Bytes, t: Bytes)
    requires Back(t) > 0
    ensures Back(s + t) == Back(t) && (s + t)[..|s + t| - Back(t)] == s + t[..|t| - Back(t)]
  {
    var st := s + t;
    assert forall k :: 0 <= k < |t| ==> st[|s| + k] == t[k];
  }

  lemma {:induction false} AllBlankAppend(s: Bytes, t: Bytes)
    requires AllBlank(s) && AllBlank(t)
    ensures AllBlank(s + t)
  {
    if s == [] {
      assert s + t == t;
    } else {
      FrontAppend(s, t);
      AllBlankAppend(s[Front(s)..], t);
    }
  }

  /** White space can be taken off from either end. */
  lemma {:induction false} AllBlankBack(s: Bytes)
    requires AllBlank(s) && s != []
    ensures Back(s) > 0 && AllBlank(s[..|s| - Back(s)])
  {
    var w := Front(s);
    var head, tail := s[..w], s[w..];
    assert s == head + tail;
    if tail == [] {
      assert Back(s) == w;
    } else {
      AllBlankBack(tail);
      BackPrepend(head, tail);
      var middle := tail[..|tail| - Back(tail)];
      assert head[w..] == [] && Front(head) == w;
      AllBlankAppend(head, middle);
    }
  }

  lemma {:induction false} TrimLeftRemoves(s: Bytes) returns (a: Bytes)
    ensures s == a + TrimLeft(s) && AllBlank(a)
  {
    var w := Front(s);
    if w > 0 {
      var more := TrimLeftRemoves(s[w..]);
      a := s[..w] + more;
      assert s[..w][w..] == [] && Front(s[..w]) == w;
      AllBlankAppend(s[..w], more);
      Assoc(s[..w], more, TrimLeft(s));
      assert s == s[..w] + s[w..];
    } else {
      a := [];
    }
  }

  lemma LastIsBlank(s: Bytes)
    requires Back(s) > 0
    ensures AllBlank(s[|s| - Back(s)..])
  {
    var last := s[|s| - Back(s)..];
    assert Front(last) == |last| && last[|last|..] == [];
  }

  lemma {:induction false} TrimRightRemoves(s: Bytes) returns (b: Bytes)
    ensures s == TrimRight(s) + b && AllBlank(b) && Back(TrimRight(s)) == 0
  {
    hide AllBlank, Back, Front;
    var n := |s| - Back(s);
    if n < |s| {
      var more := TrimRightRemoves(s[..n]);
      var last := s[n..];
      b := more + last;
      LastIsBlank(s);
      AllBlankAppend(more, last);
      Assoc(TrimRight(s), more, last);
      assert s == s[..n] + last;
    } else {
      b := [];
      NothingIsBlank();
    }
  }

  lemma NothingIsBlank()
    ensures AllBlank([])
  {
  }

  lemma {:induction false} TrimLeftOff(a: Bytes, t: Bytes)
    requires AllBlank(a)
    ensures TrimLeft(a + t) == TrimLeft(t)
  {
    if a == [] {
      assert a + t == t;
    } else {
      FrontAppend(a, t);
      TrimLeftOff(a[Front(a)..], t);
    }
  }

  lemma {:induction false} TrimRightOff(t: Bytes, b: Bytes)
    requires AllBlank(b)
    ensures TrimRight(t + b) == TrimRight(t)
    decreases |b|
  {
    if b == [] {
      assert t + b == t;
    } else {
      AllBlankBack(b);
      BackPrepend(t, b);
      TrimRightOff(t, b[..|b| - Back(b)]);
    }
  }

  /** White space behind a text does not complete a character in front of it. */
  lemma FrontBeforeBlank(t: Bytes, b: Bytes)
    requires t != [] && Front(t) == 0 && (b == [] || Front(b) > 0)
    ensures Front(t + b) == 0
  {
    if b != [] {
      assert (t + b)[|t|] == b[0];
    }
  }

  /** `s` is `t` with white space around it. */
  predicate Pads(a: Bytes, t: Bytes, b: Bytes, s: Bytes) {
    AllBlank(a) && AllBlank(b) && s == a + t + b
  }

  lemma TrimOff(a: Bytes, t: Bytes, b: Bytes, s: Bytes)
    requires Front(t) == 0 && Back(t) == 0 && Pads(a, t, b, s)
    ensures Trim(s) == t
  {
    hide AllBlank, Front, Back;
    Assoc(a, t, b);
    TrimLeftOff(a, t + b);
    if t == [] {
      assert t + b == b == b + [];
      TrimLeftOff(b, []);
    } else {
      FrontOfBlank(b);
      FrontBeforeBlank(t, b);
      TrimRightOff(t, b);
    }
  }

  /** Trimming removes the white space at both ends, all of it and nothing else. */
  lemma TrimExactly(s: Bytes, t: Bytes)
    ensures Trim(s) == t <==> Front(t) == 0 && Back(t) == 0 && exists a, b :: Pads(a, t, b, s)
  {
    hide AllBlank, Front, Back, TrimLeft, TrimRight;
    if Trim(s) == t {
      var a := TrimLeftRemoves(s);
      var b := TrimRightRemoves(TrimLeft(s));
      TrimLeftShrinks(s);
      Assoc(a, t, b);
      assert Pads(a, t, b, s);
      if Front(t) > 0 {
        FrontAppend(t, b);
      }
    }
    if Front(t) == 0 && Back(t) == 0 && exists a, b :: Pads(a, t, b, s) {
      var a, b :| Pads(a, t, b, s);
      TrimOff(a, t, b, s);
    }
  }

  lemma BlankExactly(s: Bytes)
    ensures Trim(s) == [] <==> AllBlank(s)
  {
    if AllBlank(s) {
      TrimLeftOff(s, []);
      assert s + [] == s;
    }
    if Trim(s) == [] {
      var a := TrimLeftRemoves(s);
      var b := TrimRightRemoves(TrimLeft(s));
      assert [] + b == b;
      AllBlankAppend(a, b);
    }
  }

  // ---- Words. ----

  /** A visible ASCII byte. */
  predicate IsPlain(c: char) {
    c as int < 0x80 && !IsSpace(c)
  }

  predicate AllPlain(s: Bytes) {
    forall k :: 0 <= k < |s| ==> IsPlain(s[k])
  }

  lemma PlainTrims(s: Bytes)
    requires AllPlain(s)
    ensures Trim(s) == s
  {
    if s != [] {
      assert IsPlain(s[0]) && IsPlain(Last(s));
    }
  }

  lemma {:induction false} PlainHasNoBlank(s: Bytes)
    requires AllPlain(s)
    ensures NoBlank(s)
  {
    if s != [] {
      assert IsPlain(s[0]);
      PlainHasNoBlank(s[1..]);
    }
  }

  /** A word ends where white space follows it. */
  lemma {:induction false} WordLengthIs(w: Bytes, rest: Bytes)
    requires NoBlank(w) && (rest == [] || Front(rest) > 0)
    ensures WordLength(w + rest) == |w|
  {
    if w == [] {
      assert w + rest == rest;
    } else {
      assert (w + rest)[1..] == w[1..] + rest;
      WordLengthIs(w[1..], rest);
      FrontBeforeBlank(w, rest);
    }
  }

  /** The first word, with white space in front of it or without. */
  lemma FirstWord(a: Bytes, w: Bytes, rest: Bytes)
    requires AllBlank(a) && w != [] && NoBlank(w) && (rest == [] || Front(rest) > 0)
    ensures WordsOf(a + (w + rest)) == [w] + WordsOf(rest)
  {
    var s := w + rest;
    FrontBeforeBlank(w, rest);
    WordLengthIs(w, rest);
    TrimLeftOff(a, s);
    assert TrimLeft(s) == s;
    assert s[..|w|] == w && s[|w|..] == rest;
  }

  /** The first word of a text that has one. */
  lemma SplitFirst(s: Bytes) returns (a: Bytes, w: Bytes, rest: Bytes)
    requires WordsOf(s) != []
    ensures AllBlank(a) && w != [] && NoBlank(w) && (rest == [] || Front(rest) > 0)
    ensures s == a + (w + rest) && WordsOf(s) == [w] + WordsOf(rest)
  {
    a := TrimLeftRemoves(s);
    TrimLeftShrinks(s);
    var t := TrimLeft(s);
    var k := WordLength(t);
    w, rest := t[..k], t[k..];
    BeforeBlank(t);
    WordEnd(t);
    assert t == w + rest;
  }

  lemma {:induction false} WordEnd(s: Bytes)
    ensures WordLength(s) < |s| ==> Front(s[WordLength(s)..]) > 0
  {
    if s != [] && Front(s) == 0 {
      WordEnd(s[1..]);
      assert s[1..][WordLength(s[1..])..] == s[WordLength(s)..];
    }
  }

  lemma NoWordsExactly(s: Bytes)
    ensures WordsOf(s) == [] <==> AllBlank(s)
  {
    var a := TrimLeftRemoves(s);
    if AllBlank(s) {
      TrimLeftOff(s, []);
      assert s + [] == s;
    } else {
      assert TrimLeft(s) == [] ==> a == s;
    }
  }

  /** Three words with white space between them. */
  datatype Triple = Triple(before: Bytes, first: Bytes, gap1: Bytes, second: Bytes, gap2: Bytes, third: Bytes, after: Bytes)

  function TripleText(t: Triple): Bytes {
    t.before + (t.first + (t.gap1 + (t.second + (t.gap2 + (t.third + t.after)))))
  }

  predicate IsWord(w: Bytes) {
    w != [] && NoBlank(w)
  }

  predicate IsGap(g: Bytes) {
    g != [] && AllBlank(g)
  }

  predicate IsTriple(t: Triple) {
    && AllBlank(t.before) && IsWord(t.first) && IsGap(t.gap1) && IsWord(t.second) && IsGap(t.gap2) && IsWord(t.third)
    && AllBlank(t.after)
  }

  lemma GapInFront(g: Bytes, rest: Bytes)
    requires IsGap(g)
    ensures Front(g + rest) > 0
  {
    FrontAppend(g, rest);
  }

  lemma FrontOfBlank(g: Bytes)
    requires AllBlank(g)
    ensures g == [] || Front(g) > 0
  {
  }

  lemma TripleHasThreeWords(t: Triple)
    requires IsTriple(t)
    ensures WordsOf(TripleText(t)) == [t.first, t.second, t.third]
  {
    hide WordsOf, NoBlank, AllBlank, Front, IsGap;
    var s3 := t.third + t.after;
    var s2 := t.second + (t.gap2 + s3);
    GapInFront(t.gap2, s3);
    GapInFront(t.gap1, s2);
    FrontOfBlank(t.after);
    assert AllBlank(t.gap1) && AllBlank(t.gap2) by {
      assert IsGap(t.gap1) && IsGap(t.gap2);
      GapIsBlank(t.gap1);
      GapIsBlank(t.gap2);
    }
    FirstWord(t.before, t.first, t.gap1 + s2);
    FirstWord(t.gap1, t.second, t.gap2 + s3);
    FirstWord(t.gap2, t.third, t.after);
    NoWordsExactly(t.after);
  }

  lemma GapIsBlank(g: Bytes)
    ensures IsGap(g) <==> g != [] && AllBlank(g)
  {
  }

  lemma SplitTriple(s: Bytes) returns (t: Triple)
    requires |WordsOf(s)| == 3
    ensures IsTriple(t) && TripleText(t) == s && WordsOf(s) == [t.first, t.second, t.third]
  {
    hide WordsOf, NoBlank, AllBlank, Front;
    var a, first, s1 := SplitFirst(s);
    var b, second, s2 := SplitFirst(s1);
    var c, third, d := SplitFirst(s2);
    NoWordsExactly(d);
    GapBefore(b, second, s2);
    GapBefore(c, third, d);
    t := Triple(a, first, b, second, c, third, d);
  }

  lemma GapBefore(b: Bytes, w: Bytes, rest: Bytes)
    requires w != [] && NoBlank(w) && Front(b + (w + rest)) > 0 && (rest == [] || Front(rest) > 0)
    ensures b != []
  {
    FrontBeforeBlank(w, rest);
    assert b == [] ==> b + (w + rest) == w + rest;
  }

  /** A text has exactly the three words when it consists of them, with white space between them and around. */
  lemma ThreeWordsExactly(s: Bytes, x: Bytes, y: Bytes, z: Bytes)
    ensures WordsOf(s) == [x, y, z] <==>
            exists t: Triple :: IsTriple(t) && TripleText(t) == s && t.first == x && t.second == y && t.third == z
  {
    hide WordsOf, IsTriple, TripleText;
    if WordsOf(s) == [x, y, z] {
      var t := SplitTriple(s);
    }
    if exists t: Triple :: IsTriple(t) && TripleText(t) == s && t.first == x && t.second == y && t.third == z {
      var t: Triple :| IsTriple(t) && TripleText(t) == s && t.first == x && t.second == y && t.third == z;
      TripleHasThreeWords(t);
    }
  }

  /** Every word is some visible bytes without white space. */
  lemma {:induction false} WordsAreVisible(s: Bytes, i: nat)
    requires i < |WordsOf(s)|
    ensures WordsOf(s)[i] != [] && NoBlank(WordsOf(s)[i])
    decreases |s|
  {
    var t := TrimLeft(s);
    TrimLeftShrinks(s);
    var k := WordLength(t);
    if i == 0 {
      BeforeBlank(t);
    } else {
      WordsAreVisible(t[k..], i - 1);
    }
  }

  lemma {:induction false} BeforeBlank(s: Bytes)
    ensures NoBlank(s[..WordLength(s)])
  {
    if s != [] && Front(s) == 0 {
      BeforeBlank(s[1..]);
      var w := s[..WordLength(s)];
      assert w[1..] == s[1..][..WordLength(s[1..])];
    }
  }
}
