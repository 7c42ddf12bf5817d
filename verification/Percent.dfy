/** Percent-encoded texts and what they mean (section 2.1 of RFC 3986), stated apart from the decoder. */
module Percent {
  import opened Text
  import opened HttpText

  /** A byte written as it is, or as a percent sign and two hexadecimal digits. */
  datatype Piece = Literal(c: char) | Escaped(high: char, low: char)

  predicate IsPiece(p: Piece) {
    match p
    case Literal(c) => c != '%'
    case Escaped(high, low) => IsHex(high) && IsHex(low)
  }

  predicate ArePieces(ps: seq<Piece>) {
    forall i :: 0 <= i < |ps| ==> IsPiece(ps[i])
  }

  function PieceText(p: Piece): Bytes {
    match p
    case Literal(c) => [c]
    case Escaped(high, low) => ['%', high, low]
  }

  function Spelled(ps: seq<Piece>): Bytes {
    if ps == [] then [] else PieceText(ps[0]) + Spelled(ps[1..])
  }

  function PieceMeaning(p: Piece): char
    requires IsPiece(p)
  {
    match p
    case Literal(c) => c
    case Escaped(high, low) => (16 * HexDigit(high) + HexDigit(low)) as char
  }

  function Meant(ps: seq<Piece>): Bytes
    requires ArePieces(ps)
  {
    if ps == [] then []
    else
      assert IsPiece(ps[0]);
      [PieceMeaning(ps[0])] + Meant(ps[1..])
  }

  /** `s` spells `t`. */
  ghost predicate Spells(s: Bytes, t: Bytes) {
    exists ps :: ArePieces(ps) && Spelled(ps) == s && Meant(ps) == t
  }

  /** A percent sign that does not introduce two hexadecimal digits. */
  predicate StrayAt(s: Bytes, k: int) {
    0 <= k < |s| && s[k] == '%' && !(k + 2 < |s| && IsHex(s[k + 1]) && IsHex(s[k + 2]))
  }

  ghost predicate Malformed(s: Bytes) {
    exists k :: StrayAt(s, k)
  }

  lemma {:induction false} SpelledDecodes(ps: seq<Piece>)
    requires ArePieces(ps)
    ensures PathUnescape(Spelled(ps)) == Some(Meant(ps))
  {
    if ps != [] {
      var p, s := ps[0], Spelled(ps);
      assert IsPiece(p);
      SpelledDecodes(ps[1..]);
      assert s[|PieceText(p)|..] == Spelled(ps[1..]);
    }
  }

  lemma {:induction false} DecodedIsSpelled(s: Bytes) returns (ps: seq<Piece>)
    requires PathUnescape(s).Some?
    ensures ArePieces(ps) && Spelled(ps) == s && Meant(ps) == PathUnescape(s).value
  {
    if s == [] {
      ps := [];
    } else {
      var p := if s[0] == '%' then Escaped(s[1], s[2]) else Literal(s[0]);
      var n := |PieceText(p)|;
      var more := DecodedIsSpelled(s[n..]);
      ps := [p] + more;
      assert ps[1..] == more;
      assert s == PieceText(p) + s[n..];
    }
  }

  /** Decoding succeeds exactly on the texts that are spelled in pieces, and gives what the pieces mean. */
  lemma UnescapeExactly(s: Bytes, t: Bytes)
    ensures PathUnescape(s) == Some(t) <==> Spells(s, t)
  {
    if PathUnescape(s) == Some(t) {
      var ps := DecodedIsSpelled(s);
    }
    if Spells(s, t) {
      var ps :| ArePieces(ps) && Spelled(ps) == s && Meant(ps) == t;
      SpelledDecodes(ps);
    }
  }

  /** Without the first piece, the stray percent signs are the same. */
  lemma MalformedTail(s: Bytes, n: nat)
    requires n <= |s| && (n == 1 || n == 3) && (n == 1 <==> s[0] != '%')
    requires n == 3 ==> IsHex(s[1]) && IsHex(s[2])
    ensures Malformed(s) <==> Malformed(s[n..])
  {
    var rest := s[n..];
    if Malformed(rest) {
      var k :| StrayAt(rest, k);
      assert StrayAt(s, k + n);
    }
    if Malformed(s) {
      var k :| StrayAt(s, k);
      assert StrayAt(rest, k - n);
    }
  }

  /** Decoding fails exactly on the malformed texts. */
  lemma {:induction false} UnescapeFailsExactly(s: Bytes)
    ensures PathUnescape(s).None? <==> Malformed(s)
    decreases |s|
  {
    if s != [] {
      var n := if s[0] == '%' then 3 else 1;
      if n <= |s| && (n == 3 ==> IsHex(s[1]) && IsHex(s[2])) {
        UnescapeFailsExactly(s[n..]);
        MalformedTail(s, n);
      } else {
        assert StrayAt(s, 0);
      }
    }
  }

  // ---- Every byte can be spelled. ----

  function HexLower(d: nat): char
    requires d < 16
  {
    if d < 10 then ('0' as int + d) as char else ('a' as int + d - 10) as char
  }

  function HexUpper(d: nat): char
    requires d < 16
  {
    if d < 10 then ('0' as int + d) as char else ('A' as int + d - 10) as char
  }

  /** The hexadecimal digits in either case have the sixteen values, and there are no others. */
  lemma HexDigitExactly(c: char, d: nat)
    requires d < 16
    ensures IsHex(c) && HexDigit(c) == d <==> c == HexLower(d) || c == HexUpper(d)
  {
  }
}
