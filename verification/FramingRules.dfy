/** Which header fields frame a request, and which Host values and transfer codings pass (http/parser.go:71-101). */
module FramingRules {
  import opened Text
  import opened Blanks
  import opened HttpText
  import opened Http

  // ---- The framing. ----

  /** Something visible, and none of the four bytes. */
  predicate PassesAsHost(v: Bytes) {
    !AllBlank(v) && forall k :: 0 <= k < |v| ==> v[k] !in " \t\r\n"
  }

  lemma PassesExactly(v: Bytes)
    ensures PassesAsHost(v) <==> Trim(v) != [] && !HasHostSpace(v)
  {
    BlankExactly(v);
  }

  /** Headers that frame a body in the given way: the Host passes and exactly that framing is announced, within 1 MiB. */
  predicate Frames(headers: FieldMap, f: Framing) {
    && "Host" in headers && PassesAsHost(headers["Host"])
    && (f.Chunked? <==> "Transfer-Encoding" in headers)
    && (f.Chunked? ==> "Content-Length" !in headers && SpellsChunked(Trim(headers["Transfer-Encoding"])))
    && (f.NoBody? && "Content-Length" in headers ==>
          IsDecimal(headers["Content-Length"]) && DecimalValue(headers["Content-Length"]) == 0)
    && (f.Length? ==> "Content-Length" in headers && IsDecimal(headers["Content-Length"])
                      && DecimalValue(headers["Content-Length"]) == f.n && 0 < f.n <= 0x10_0000)
  }

  /** Headers are accepted with a framing exactly when they frame the body in that way. */
  lemma FramingExactly(headers: FieldMap, f: Framing)
    ensures FramingOf(headers) == Good(f) <==> Frames(headers, f)
  {
    hide IsChunked, Trim, HasHostSpace, PassesAsHost, SpellsChunked;
    if "Host" in headers {
      PassesExactly(headers["Host"]);
    }
    if "Transfer-Encoding" in headers {
      CodingExactly(headers["Transfer-Encoding"]);
    }
  }

  /** Why a Content-Length is refused: it is no numeral of a 64-bit integer, or it is too large for a body. */
  lemma LengthIsRefused(headers: FieldMap)
    requires "Host" in headers && PassesAsHost(headers["Host"])
    requires "Transfer-Encoding" !in headers && "Content-Length" in headers
    ensures var text := headers["Content-Length"];
            && (FramingOf(headers) == Bad(InvalidContentLength) <==> !IsDecimal(text) || DecimalValue(text) >= 0x8000_0000_0000_0000)
            && (FramingOf(headers) == Bad(BodyTooLarge) <==>
                  IsDecimal(text) && 0x10_0000 < DecimalValue(text) < 0x8000_0000_0000_0000)
  {
    PassesExactly(headers["Host"]);
  }

  // ---- The Host. ----

  /** The documented rule: something, without white space and control characters. */
  predicate DocumentedHost(v: Bytes) {
    v != [] && NoBlank(v) && !HasControl(v)
  }

  lemma {:induction false} NoBlankNoSpace(v: Bytes)
    requires NoBlank(v)
    ensures forall k :: 0 <= k < |v| ==> !IsSpace(v[k])
  {
    if v != [] {
      NoBlankNoSpace(v[1..]);
      assert forall k :: 0 < k < |v| ==> v[k] == v[1..][k - 1];
    }
  }

  /** The code and the documented rule agree on a value exactly when the value is blank or has one of the four bytes
    * that are refused, or has no control character and no white space at all. */
  lemma HostMeetsDocumentExactly(v: Bytes)
    ensures DocumentedHost(v) ==> PassesAsHost(v)
    ensures (PassesAsHost(v) <==> DocumentedHost(v)) <==>
            (AllBlank(v) || (exists k :: 0 <= k < |v| && v[k] in " \t\r\n") || (!HasControl(v) && NoBlank(v)))
  {
    if v != [] && NoBlank(v) {
      NoBlankNoSpace(v);
    }
  }

  // ---- The transfer coding. ----

  /** The spellings of the coding apart from white space around it: any case, and a Kelvin sign for the k. */
  predicate SpellsChunked(t: Bytes) {
    || LowerAll(t) == "chunked"
    || (|t| == 9 && LowerAll(t[..4]) == "chun" && StartsWithKelvin(t[4..]) && LowerAll(t[7..]) == "ed")
  }

  /** Folding gives a letter only for that letter, the Kelvin sign and the long s apart. */
  lemma FoldPeel(t: Bytes, c: char, w: Bytes)
    requires 'a' <= c <= 'z' && c != 'k' && c != 's'
    ensures Folded(t) == [c] + w <==> t != [] && Lower(t[0]) == c && Folded(t[1..]) == w
  {
    if t != [] && Folded(t) == [c] + w {
      assert Folded(t)[0] == c;
      assert ([c] + w)[1..] == w;
    }
  }

  lemma FoldPeelKelvin(t: Bytes, w: Bytes)
    ensures Folded(t) == ['k'] + w <==>
            t != [] && ((Lower(t[0]) == 'k' && Folded(t[1..]) == w) || (StartsWithKelvin(t) && Folded(t[3..]) == w))
  {
    if t != [] && Folded(t) == ['k'] + w {
      assert Folded(t)[0] == 'k';
      assert (['k'] + w)[1..] == w;
    }
  }

  lemma {:induction false} FoldPrefix(t: Bytes, p: Bytes, w: Bytes)
    requires forall k :: 0 <= k < |p| ==> 'a' <= p[k] <= 'z' && p[k] != 'k' && p[k] != 's'
    ensures Folded(t) == p + w <==> |p| <= |t| && LowerAll(t[..|p|]) == p && Folded(t[|p|..]) == w
  {
    hide Folded, Lower;
    if p == [] {
      assert [] + w == w && t[0..] == t;
      assert LowerAll(t[..0]) == [];
    } else {
      Assoc([p[0]], p[1..], w);
      assert p == [p[0]] + p[1..];
      FoldPeel(t, p[0], p[1..] + w);
      if t != [] {
        FoldPrefix(t[1..], p[1..], w);
        if |p| <= |t| {
          assert t[1..][|p| - 1..] == t[|p|..];
          LowerAllCons(t[..|p|], p);
          assert t[..|p|][1..] == t[1..][..|p| - 1];
        }
      }
    }
  }

  lemma FoldedAll(t: Bytes)
    ensures Folded(t) == "ed" <==> LowerAll(t) == "ed"
  {
    hide Lower;
    FoldPrefix(t, "ed", "");
    assert "ed" + "" == "ed";
    assert |t| == 2 ==> t[..2] == t && t[2..] == [];
  }

  lemma LowerAllCons(t: Bytes, p: Bytes)
    requires t != [] && p != []
    ensures LowerAll(t) == p <==> Lower(t[0]) == p[0] && LowerAll(t[1..]) == p[1..]
  {
    if Lower(t[0]) == p[0] && LowerAll(t[1..]) == p[1..] {
      assert forall k :: 1 <= k < |t| ==> LowerAll(t)[k] == LowerAll(t[1..])[k - 1] == p[k];
    }
  }

  lemma FourLetters(t: Bytes)
    requires |t| >= 4
    ensures LowerAll(t[..4]) == "chun" <==>
            Lower(t[0]) == 'c' && Lower(t[1]) == 'h' && Lower(t[2]) == 'u' && Lower(t[3]) == 'n'
  {
  }

  /** Exactly the spellings are accepted, with white space around them or without. */
  lemma CodingExactly(v: Bytes)
    ensures IsChunked(v) <==> SpellsChunked(Trim(v))
  {
    hide Folded, Trim, Lower;
    var t := Trim(v);
    FoldPrefix(t, "chun", "ked");
    assert "chun" + "ked" == "chunked";
    assert "ked" == ['k'] + "ed";
    if |t| >= 4 {
      var u := t[4..];
      FoldPeelKelvin(u, "ed");
      if u != [] {
        FoldedAll(u[1..]);
      }
      if |u| >= 3 {
        FoldedAll(u[3..]);
        assert u[3..] == t[7..];
      }
      SevenLetters(t);
    }
  }

  lemma SevenLetters(t: Bytes)
    requires |t| >= 4
    ensures LowerAll(t) == "chunked" <==>
            LowerAll(t[..4]) == "chun" && t[4..] != [] && Lower(t[4..][0]) == 'k' && LowerAll(t[4..][1..]) == "ed"
  {
    if LowerAll(t[..4]) == "chun" && t[4..] != [] && Lower(t[4..][0]) == 'k' && LowerAll(t[4..][1..]) == "ed" {
      assert |t| == 7;
      FourLetters(t);
      assert forall k :: 5 <= k < 7 ==> LowerAll(t)[k] == LowerAll(t[4..][1..])[k - 5];
    }
  }
}
