/** List headers: elements separated by commas (core/connection.go:128-133). */
module CommaList {
  import opened Text
  import opened Blanks
  import opened HttpText

  /** The comma-separated elements of a list header. */
  function SplitComma(s: Bytes): seq<Bytes>
    decreases |s|
  {
    var k := IndexOf(s, ',');
    if k == |s| then [s] else [s[..k]] + SplitComma(s[k + 1..])
  }

  function JoinComma(pieces: seq<Bytes>): Bytes
    requires pieces != []
  {
    if |pieces| == 1 then pieces[0] else pieces[0] + "," + JoinComma(pieces[1..])
  }

  /** The elements are the pieces between the commas: none is lost and none contains a comma. */
  lemma {:induction false} SplitCommaExactly(s: Bytes)
    ensures SplitComma(s) != [] && JoinComma(SplitComma(s)) == s
    ensures forall i :: 0 <= i < |SplitComma(s)| ==> ',' !in SplitComma(s)[i]
    decreases |s|
  {
    var k := IndexOf(s, ',');
    if k < |s| {
      var tail := s[k + 1..];
      SplitCommaExactly(tail);
      assert s == s[..k] + "," + tail;
      var pieces := SplitComma(s);
      assert pieces[1..] == SplitComma(tail);
    }
  }

  // ---- Elements, stated apart from the splitting. ----

  /** `t` is one of the elements of the list `s`. */
  predicate IsElement(s: Bytes, a: Bytes, t: Bytes, b: Bytes) {
    s == a + (t + b) && (a == [] || Last(a) == ',') && (b == [] || b[0] == ',') && ',' !in t
  }

  lemma FirstElement(s: Bytes)
    ensures IsElement(s, [], s[..IndexOf(s, ',')], s[IndexOf(s, ',')..])
  {
    var k := IndexOf(s, ',');
    assert s == s[..k] + s[k..];
  }

  lemma ElementBehind(s: Bytes, k: nat, a: Bytes, t: Bytes, b: Bytes)
    requires k < |s| && s[k] == ',' && IsElement(s[k + 1..], a, t, b)
    ensures IsElement(s, s[..k + 1] + a, t, b)
  {
    assert s == s[..k + 1] + s[k + 1..];
    Assoc(s[..k + 1], a, t + b);
  }

  lemma {:induction false} ElementOfPiece(s: Bytes, i: nat) returns (a: Bytes, b: Bytes)
    requires i < |SplitComma(s)|
    ensures IsElement(s, a, SplitComma(s)[i], b)
    decreases |s|
  {
    hide IsElement;
    var k := IndexOf(s, ',');
    if i == 0 {
      a, b := [], s[k..];
      FirstElement(s);
      assert s[..|s|] == s;
    } else {
      a, b := ElementOfPiece(s[k + 1..], i - 1);
      ElementBehind(s, k, a, SplitComma(s)[i], b);
      a := s[..k + 1] + a;
    }
  }

  lemma ElementInFront(s: Bytes, t: Bytes, b: Bytes)
    requires IsElement(s, [], t, b)
    ensures IndexOf(s, ',') == |t| && s[..|t|] == t
  {
    assert s == t + b;
    if b != [] {
      IndexOfFirst(s, ',', |t|);
    }
  }

  lemma ElementAfterComma(s: Bytes, a: Bytes, t: Bytes, b: Bytes)
    requires IsElement(s, a, t, b) && a != []
    ensures var k := IndexOf(s, ',');
            k < |a| && a[k] == ',' && IsElement(s[k + 1..], a[k + 1..], t, b)
  {
    var k := IndexOf(s, ',');
    assert s[|a| - 1] == ',';
    assert s[k + 1..] == a[k + 1..] + (t + b);
    assert a[k + 1..] != [] ==> Last(a[k + 1..]) == Last(a);
  }

  lemma {:induction false} PieceOfElement(s: Bytes, a: Bytes, t: Bytes, b: Bytes) returns (i: nat)
    requires IsElement(s, a, t, b)
    ensures i < |SplitComma(s)| && SplitComma(s)[i] == t
    decreases |s|
  {
    if a == [] {
      ElementInFront(s, t, b);
      i := 0;
      assert s[..|s|] == s;
    } else {
      ElementAfterComma(s, a, t, b);
      hide IsElement;
      var k := IndexOf(s, ',');
      var n := PieceOfElement(s[k + 1..], a[k + 1..], t, b);
      i := n + 1;
    }
  }

  /** Splitting gives exactly the elements. */
  lemma ElementsExactly(s: Bytes, t: Bytes)
    ensures t in SplitComma(s) <==> exists a, b :: IsElement(s, a, t, b)
  {
    hide IsElement, SplitComma;
    if t in SplitComma(s) {
      var i: nat :| i < |SplitComma(s)| && SplitComma(s)[i] == t;
      var a, b := ElementOfPiece(s, i);
    }
    if a, b :| IsElement(s, a, t, b) {
      var i := PieceOfElement(s, a, t, b);
    }
  }

  // ---- Folding case first makes no difference. ----

  lemma LowerSlice(s: Bytes, i: nat, j: nat)
    requires i <= j <= |s|
    ensures LowerAll(s[i..j]) == LowerAll(s)[i..j]
  {
  }

  lemma LowerKeepsEnds(s: Bytes)
    ensures Front(LowerAll(s)) == Front(s) && Back(LowerAll(s)) == Back(s)
  {
  }

  lemma {:induction false} LowerTrimLeft(s: Bytes)
    ensures TrimLeft(LowerAll(s)) == LowerAll(TrimLeft(s))
  {
    hide LowerAll, Front;
    LowerKeepsEnds(s);
    var w := Front(s);
    if w > 0 {
      LowerSlice(s, w, |s|);
      assert s[w..|s|] == s[w..] && LowerAll(s)[w..|s|] == LowerAll(s)[w..];
      LowerTrimLeft(s[w..]);
    }
  }

  lemma {:induction false} LowerTrimRight(s: Bytes)
    ensures TrimRight(LowerAll(s)) == LowerAll(TrimRight(s))
  {
    hide LowerAll, Back;
    LowerKeepsEnds(s);
    var n := |s| - Back(s);
    if n < |s| {
      LowerSlice(s, 0, n);
      assert s[0..n] == s[..n];
      LowerTrimRight(s[..n]);
    }
  }

  lemma LowerTrim(s: Bytes)
    ensures Trim(LowerAll(s)) == LowerAll(Trim(s))
  {
    LowerTrimLeft(s);
    LowerTrimRight(TrimLeft(s));
  }

  lemma LowerElement(s: Bytes, a: Bytes, t: Bytes, b: Bytes)
    requires IsElement(s, a, t, b)
    ensures IsElement(LowerAll(s), LowerAll(a), LowerAll(t), LowerAll(b))
  {
    assert forall c :: Lower(c) == ',' <==> c == ',';
  }

  lemma LowerComma(s: Bytes, k: nat)
    requires k < |s|
    ensures LowerAll(s)[k] == ',' <==> s[k] == ','
  {
  }

  /** An element of the folded list is an element of the list, folded. */
  lemma RaiseElement(s: Bytes, a: Bytes, t: Bytes, b: Bytes) returns (a': Bytes, t': Bytes, b': Bytes)
    requires IsElement(LowerAll(s), a, t, b)
    ensures IsElement(s, a', t', b') && LowerAll(t') == t
  {
    hide LowerAll, Lower;
    var n, m := |a|, |a| + |t|;
    var low := LowerAll(s);
    a', t', b' := s[..n], s[n..m], s[m..];
    LowerSlice(s, n, m);
    assert low[n..m] == t;
    assert s == a' + (t' + b');
    if a != [] {
      assert low[n - 1] == Last(a);
      LowerComma(s, n - 1);
    }
    if b != [] {
      assert low[m] == b[0];
      LowerComma(s, m);
    }
    forall k | 0 <= k < |t'| ensures t'[k] != ',' {
      assert low[n + k] == t[k] && s[n + k] == t'[k];
      LowerComma(s, n + k);
    }
  }

  // ---- Looking for a word. ----

  /** Some piece of the list, trimmed, is the word. */
  predicate PieceSays(s: Bytes, word: Bytes) {
    exists i :: 0 <= i < |SplitComma(s)| && Trim(SplitComma(s)[i]) == word
  }

  /** Some element of the list is the word, in any case and with white space around it or not. */
  ghost predicate ElementSays(s: Bytes, word: Bytes) {
    exists a, t, b :: IsElement(s, a, t, b) && LowerAll(Trim(t)) == word
  }

  lemma PieceIsElement(s: Bytes, word: Bytes, i: nat)
    requires i < |SplitComma(LowerAll(s))| && Trim(SplitComma(LowerAll(s))[i]) == word
    ensures ElementSays(s, word)
  {
    hide Trim, IsElement, SplitComma, LowerAll;
    var low := LowerAll(s);
    var piece := SplitComma(low)[i];
    var a, b := ElementOfPiece(low, i);
    var a', t, b' := RaiseElement(s, a, piece, b);
    LowerTrim(t);
  }

  lemma ElementIsPiece(s: Bytes, word: Bytes, a: Bytes, t: Bytes, b: Bytes)
    requires IsElement(s, a, t, b) && LowerAll(Trim(t)) == word
    ensures PieceSays(LowerAll(s), word)
  {
    hide Trim, IsElement, SplitComma, LowerAll;
    LowerElement(s, a, t, b);
    var i := PieceOfElement(LowerAll(s), LowerAll(a), LowerAll(t), LowerAll(b));
    LowerTrim(t);
    assert Trim(SplitComma(LowerAll(s))[i]) == word;
  }

  lemma SaysExactly(s: Bytes, word: Bytes)
    ensures PieceSays(LowerAll(s), word) <==> ElementSays(s, word)
  {
    if PieceSays(LowerAll(s), word) {
      var i: nat :| i < |SplitComma(LowerAll(s))| && Trim(SplitComma(LowerAll(s))[i]) == word;
      PieceIsElement(s, word, i);
    }
    if ElementSays(s, word) {
      var a, t, b :| IsElement(s, a, t, b) && LowerAll(Trim(t)) == word;
      ElementIsPiece(s, word, a, t, b);
    }
  }
}
