/** The canonical form in which the web application firewall compares text (security/waf/normalize.go). */
module Normalize {
  import opened Text

  // ---- Reference semantics: remove comments, then squeeze white space and fold case. ----

  /** The text after the first comment terminator. */
  function AfterClose(c: Bytes): (r: Option<Bytes>)
    ensures r.Some? ==> |r.value| < |c|
  {
    if |c| < 2 then None
    else if c[0] == '*' && c[1] == '/' then Some(c[2..])
    else AfterClose(c[1..])
  }

  /** Every block comment becomes one space; an unterminated comment swallows the rest. */
  function StripComments(x: Bytes): Bytes
    decreases |x|, 0
  {
    if |x| >= 2 && x[0] == '/' && x[1] == '*' then CommentRest(x[2..])
    else if x == [] then []
    else [x[0]] + StripComments(x[1..])
  }

  function CommentRest(c: Bytes): Bytes
    decreases |c|, 1
  {
    match AfterClose(c)
    case None => []
    case Some(rest) => [' '] + StripComments(rest)
  }

  /** The separator due before the next visible byte. */
  function Gap(s: Bytes): Bytes
    decreases |s|, 1
  {
    if s != [] && IsSpace(Last(s)) && Squeeze(s) != [] then [' '] else []
  }

  /** Drops outer white space, squeezes inner white space to one space, folds case. */
  function Squeeze(s: Bytes): Bytes
    decreases |s|, 0
  {
    if s == [] then []
    else if IsSpace(Last(s)) then Squeeze(Init(s))
    else Squeeze(Init(s)) + Gap(Init(s)) + [Lower(Last(s))]
  }

  function Norm(x: Bytes): Bytes {
    Squeeze(StripComments(x))
  }

  // ---- Facts about squeezing. ----

  lemma SqueezeSnoc(s: Bytes, b: char)
    ensures IsSpace(b) ==> Squeeze(s + [b]) == Squeeze(s)
    ensures !IsSpace(b) ==> Squeeze(s + [b]) == Squeeze(s) + Gap(s) + [Lower(b)]
  {
    InitAppend(s, b);
  }

  /** What has been produced is never taken back. */
  lemma {:induction false} SqueezeGrows(a: Bytes, b: Bytes)
    ensures Squeeze(a) <= Squeeze(a + b)
    decreases |b|
  {
    if b == [] {
      assert a + b == a;
    } else {
      SqueezeGrows(a, Init(b));
      assert a + b == (a + Init(b)) + [Last(b)];
      SqueezeSnoc(a + Init(b), Last(b));
    }
  }

  lemma {:induction false} SqueezeShrinks(s: Bytes)
    ensures |Squeeze(s)| + |Gap(s)| <= |s|
  {
    if s != [] {
      SqueezeShrinks(Init(s));
    }
  }

  lemma {:induction false} StripShrinks(x: Bytes)
    ensures |StripComments(x)| <= |x|
    decreases |x|
  {
    if |x| >= 2 && x[0] == '/' && x[1] == '*' {
      var c := AfterClose(x[2..]);
      if c.Some? {
        StripShrinks(c.value);
      }
    } else if x != [] {
      StripShrinks(x[1..]);
    }
  }

  /** Normalizing never lengthens the text. */
  lemma NormShrinks(x: Bytes)
    ensures |Norm(x)| <= |x|
  {
    StripShrinks(x);
    SqueezeShrinks(StripComments(x));
  }

  lemma LowerAllWord(a: Bytes, b: char)
    ensures LowerAll(a + [b]) == LowerAll(a) + [Lower(b)]
    ensures LowerAll(a + [' '] + [b]) == LowerAll(a) + [' '] + [Lower(b)]
    ensures LowerAll([b]) == [Lower(b)]
  {
  }

  /** Reading one more byte either starts a new word or lengthens the last one. */
  lemma FieldsStep(t: Bytes, b: char)
    requires !IsSpace(b)
    ensures t == [] || IsSpace(Last(t)) || Fields(t) == [] ==> Fields(t + [b]) == Fields(t) + [[b]]
    ensures !(t == [] || IsSpace(Last(t)) || Fields(t) == []) ==>
              Fields(t + [b]) == Init(Fields(t)) + [Last(Fields(t)) + [b]]
  {
    InitAppend(t, b);
  }

  lemma JoinedSnoc(f: seq<Bytes>, w: Bytes)
    ensures Joined(f + [w]) == if f == [] then w else Joined(f) + [' '] + w
  {
    InitAppend(f, w);
  }

  lemma JoinedLonger(f: seq<Bytes>, b: char)
    requires f != []
    ensures Joined(Init(f) + [Last(f) + [b]]) == Joined(f) + [b]
  {
    hide Joined;
    var i, l := Init(f), Last(f);
    assert f == i + [l];
    JoinedSnoc(i, l);
    JoinedSnoc(i, l + [b]);
    Assoc(Joined(i) + [' '], l, [b]);
  }

  /** Squeezing joins the white-space separated words by single spaces and folds their case. */
  lemma {:induction false} SqueezeJoinsFields(s: Bytes)
    ensures Squeeze(s) == LowerAll(Joined(Fields(s)))
    ensures Squeeze(s) == [] <==> Fields(s) == []
    ensures s != [] && !IsSpace(Last(s)) ==> Fields(s) != []
  {
    if s != [] {
      var t, b := Init(s), Last(s);
      assert s == t + [b];
      SqueezeJoinsFields(t);
      if !IsSpace(b) {
        FieldsStep(t, b);
        SqueezeSnoc(t, b);
        var f := Fields(t);
        if t == [] || IsSpace(Last(t)) || f == [] {
          JoinedSnoc(f, [b]);
          LowerAllWord(Joined(f), b);
          assert Gap(t) == if f == [] then [] else [' '];
        } else {
          JoinedLonger(f, b);
          LowerAllWord(Joined(f), b);
        }
      }
    }
  }

  // ---- The image of Norm. ----

  predicate NoOpening(s: Bytes) {
    forall k :: 0 <= k < |s| - 1 ==> !(s[k] == '/' && s[k + 1] == '*')
  }

  /** No upper case, no white space but single inner spaces, no comment opening. */
  predicate IsNormal(s: Bytes) {
    && (forall k :: 0 <= k < |s| ==> !('A' <= s[k] <= 'Z') && (IsSpace(s[k]) ==> s[k] == ' '))
    && (s != [] ==> s[0] != ' ' && Last(s) != ' ')
    && (forall k :: 0 <= k < |s| - 1 ==> !(s[k] == ' ' && s[k + 1] == ' '))
    && NoOpening(s)
  }

  lemma NoOpeningCons(b: char, s: Bytes)
    requires NoOpening(s) && !(b == '/' && s != [] && s[0] == '*')
    ensures NoOpening([b] + s)
  {
    var r := [b] + s;
    forall k | 0 <= k < |r| - 1 ensures !(r[k] == '/' && r[k + 1] == '*') {
      if k > 0 {
        assert r[k] == s[k - 1] && r[k + 1] == s[k - 1 + 1];
      }
    }
  }

  lemma {:induction false} StripHasNoOpening(x: Bytes)
    ensures NoOpening(StripComments(x))
    ensures StripComments(x) != [] && StripComments(x)[0] == '*' ==> x != [] && x[0] == '*'
    decreases |x|
  {
    if |x| >= 2 && x[0] == '/' && x[1] == '*' {
      var c := AfterClose(x[2..]);
      if c.Some? {
        StripHasNoOpening(c.value);
        NoOpeningCons(' ', StripComments(c.value));
      }
    } else if x != [] {
      StripHasNoOpening(x[1..]);
      NoOpeningCons(x[0], StripComments(x[1..]));
    }
  }

  lemma AppendIsNormal(q: Bytes, gap: bool, b: char)
    requires IsNormal(q) && !IsSpace(b)
    requires gap ==> q != []
    requires !gap && q != [] && Last(q) == '/' ==> b != '*'
    ensures IsNormal(q + (if gap then [' '] else []) + [Lower(b)])
  {
    var r := q + (if gap then [' '] else []) + [Lower(b)];
    forall k | 0 <= k < |r| - 1
      ensures !(r[k] == ' ' && r[k + 1] == ' ') && !(r[k] == '/' && r[k + 1] == '*')
    {
      if k + 1 < |q| {
        assert r[k] == q[k] && r[k + 1] == q[k + 1];
      }
    }
  }

  lemma {:induction false} SqueezeIsNormal(s: Bytes)
    requires NoOpening(s)
    ensures IsNormal(Squeeze(s))
    ensures s != [] && !IsSpace(Last(s)) ==> Squeeze(s) != [] && Last(Squeeze(s)) == Lower(Last(s))
  {
    if s != [] {
      var t := Init(s);
      assert NoOpening(t) by {
        forall k | 0 <= k < |t| - 1 ensures !(t[k] == '/' && t[k + 1] == '*') {
          assert s[k] == t[k] && s[k + 1] == t[k + 1];
        }
      }
      SqueezeIsNormal(t);
      if !IsSpace(Last(s)) {
        if t != [] {
          assert !(s[|t| - 1] == '/' && s[|t| - 1 + 1] == '*');
        }
        AppendIsNormal(Squeeze(t), Gap(t) != [], Last(s));
        assert Gap(t) == if Gap(t) != [] then [' '] else [];
      }
    }
  }

  lemma {:induction false} StripKeepsPlain(x: Bytes)
    requires NoOpening(x)
    ensures StripComments(x) == x
  {
    if x != [] {
      assert |x| >= 2 ==> !(x[0] == '/' && x[0 + 1] == '*');
      assert NoOpening(x[1..]) by {
        forall k | 0 <= k < |x[1..]| - 1 ensures !(x[1..][k] == '/' && x[1..][k + 1] == '*') {
          assert !(x[k + 1] == '/' && x[(k + 1) + 1] == '*');
        }
      }
      StripKeepsPlain(x[1..]);
    }
  }

  /** A prefix of a normal text, possibly cut after an inner space. */
  lemma {:induction false} SqueezeKeepsNormal(s: Bytes, n: nat)
    requires IsNormal(s) && n <= |s|
    ensures Squeeze(s[..n]) + Gap(s[..n]) == s[..n]
  {
    if n > 0 {
      SqueezeKeepsNormal(s, n - 1);
      assert Init(s[..n]) == s[..n - 1] && Last(s[..n]) == s[n - 1];
      if s[n - 1] == ' ' && n > 1 {
        assert s[n - 2] != ' ';
        assert Last(s[..n - 1]) == s[n - 2];
      }
    }
  }

  /** The outputs of Norm are exactly its fixed points, and exactly the normal texts. */
  lemma NormalForms(x: Bytes)
    ensures IsNormal(Norm(x))
    ensures Norm(Norm(x)) == Norm(x)
    ensures IsNormal(x) <==> Norm(x) == x
  {
    StripHasNoOpening(x);
    SqueezeIsNormal(StripComments(x));
    NormalIsFixed(Norm(x));
    if IsNormal(x) {
      NormalIsFixed(x);
    }
  }

  lemma NormalIsFixed(n: Bytes)
    requires IsNormal(n)
    ensures Norm(n) == n
  {
    StripKeepsPlain(n);
    SqueezeKeepsNormal(n, |n|);
    assert n[..|n|] == n;
  }

  // ---- What comments stand for. ----

  predicate NoClose(c: Bytes) {
    forall k :: 0 <= k < |c| - 1 ==> !(c[k] == '*' && c[k + 1] == '/')
  }

  lemma {:induction false} FindsClose(c: Bytes, b: Bytes)
    requires NoClose(c)
    ensures AfterClose(c + ("*/" + b)) == Some(b) && AfterClose(c) == None
  {
    var x := c + ("*/" + b);
    if c == [] {
      assert x[2..] == b;
    } else {
      assert x[1..] == c[1..] + ("*/" + b);
      assert NoClose(c[1..]) by {
        forall k | 0 <= k < |c[1..]| - 1 ensures !(c[1..][k] == '*' && c[1..][k + 1] == '/') {
          assert !(c[k + 1] == '*' && c[k + 1 + 1] == '/');
        }
      }
      FindsClose(c[1..], b);
      assert |c| > 1 ==> !(c[0] == '*' && c[0 + 1] == '/');
    }
  }

  /** Text in front of which no comment opens is kept. */
  lemma {:induction false} StripKeepsFront(a: Bytes, y: Bytes)
    requires NoOpening(a) && (y != [] ==> y[0] != '*')
    ensures StripComments(a + y) == a + StripComments(y)
  {
    if a == [] {
      assert a + y == y;
    } else {
      var x := a + y;
      assert x[1..] == a[1..] + y;
      assert NoOpening(a[1..]) by {
        forall k | 0 <= k < |a[1..]| - 1 ensures !(a[1..][k] == '/' && a[1..][k + 1] == '*') {
          assert !(a[k + 1] == '/' && a[k + 1 + 1] == '*');
        }
      }
      StripKeepsFront(a[1..], y);
      assert |a| > 1 ==> !(a[0] == '/' && a[0 + 1] == '*');
      assert a == [a[0]] + a[1..];
      Assoc([a[0]], a[1..], StripComments(y));
    }
  }

  /** A comment stands for one space: it separates words, and its text counts for nothing. */
  lemma CommentIsSpace(a: Bytes, c: Bytes, b: Bytes)
    requires NoOpening(a) && NoClose(c)
    ensures Norm(a + ("/*" + (c + ("*/" + b)))) == Norm(a + (" " + b))
  {
    var x := "/*" + (c + ("*/" + b));
    assert x[2..] == c + ("*/" + b);
    FindsClose(c, b);
    StripKeepsFront(a, x);
    StripKeepsFront(a, " " + b);
    assert (" " + b)[1..] == b;
  }

  /** A comment that is not closed swallows the rest. */
  lemma UnclosedComment(a: Bytes, c: Bytes)
    requires NoOpening(a) && NoClose(c)
    ensures Norm(a + ("/*" + c)) == Norm(a)
  {
    var x := "/*" + c;
    assert x[2..] == c;
    FindsClose(c, []);
    StripKeepsFront(a, x);
    StripKeepsFront(a, []);
    assert a + [] == a;
  }

  /** Without comments, the words in lower case with single spaces between them. */
  lemma PlainTextNormalizes(x: Bytes)
    requires NoOpening(x)
    ensures Norm(x) == LowerAll(Joined(Fields(x)))
  {
    StripKeepsPlain(x);
    SqueezeJoinsFields(x);
  }

  // ---- The batch algorithm. ----

  method TrimTrailingSpace(value: Bytes) returns (r: Bytes)
    ensures r == if value != [] && Last(value) == ' ' then Init(value) else value
  {
    if |value| > 0 && value[|value| - 1] == ' ' {
      return value[..|value| - 1];
    }
    return value;
  }

  /** Looks for the end of a comment whose text starts at `start`. */
  method FindClose(input: Bytes, start: nat) returns (i: nat)
    requires start <= |input|
    ensures start <= i <= |input|
    ensures i + 1 < |input| ==> AfterClose(input[start..]) == Some(input[i + 2..])
    ensures i + 1 >= |input| ==> AfterClose(input[start..]) == None
  {
    i := start;
    while i + 1 < |input| && !(input[i] == '*' && input[i + 1] == '/')
      invariant start <= i <= |input|
      invariant AfterClose(input[start..]) == AfterClose(input[i..])
    {
      assert input[i..][1..] == input[i + 1..];
      i := i + 1;
    }
    if i + 1 < |input| {
      assert input[i..][2..] == input[i + 2..];
    }
  }

  /** The input before position `i` has been reduced to `stripped`. */
  ghost predicate Reduced(input: Bytes, i: nat, stripped: Bytes) {
    i <= |input| && StripComments(input) == stripped + StripComments(input[i..])
  }

  predicate Opens(input: Bytes, i: nat) {
    i + 1 < |input| && input[i] == '/' && input[i + 1] == '*'
  }

  lemma ReducePlain(input: Bytes, i: nat, stripped: Bytes)
    requires i < |input| && Reduced(input, i, stripped) && !Opens(input, i)
    ensures Reduced(input, i + 1, stripped + [input[i]])
  {
    var x := input[i..];
    assert x[1..] == input[i + 1..];
    Assoc(stripped, [input[i]], StripComments(x[1..]));
  }

  lemma ReduceComment(input: Bytes, i: nat, stripped: Bytes, j: nat)
    requires Reduced(input, i, stripped) && Opens(input, i) && j <= |input|
    ensures AfterClose(input[i + 2..]) == None ==> Reduced(input, |input|, stripped)
    ensures AfterClose(input[i + 2..]) == Some(input[j..]) ==> Reduced(input, j, stripped + [' '])
  {
    var x := input[i..];
    assert x[2..] == input[i + 2..] && StripComments(x) == CommentRest(x[2..]);
    if AfterClose(x[2..]) == None {
      assert input[|input|..] == [] && StripComments([]) == [];
    } else {
      Assoc(stripped, [' '], StripComments(input[j..]));
    }
  }

  /** The separator that is due, if any, and the folded byte. */
  method AppendVisible(out: Bytes, pendingSpace: bool, b: char, ghost stripped: Bytes) returns (r: Bytes)
    requires out == Squeeze(stripped) && !IsSpace(b)
    requires pendingSpace <==> stripped != [] && IsSpace(Last(stripped))
    ensures r == Squeeze(stripped + [b])
  {
    SqueezeSnoc(stripped, b);
    r := out;
    if pendingSpace && |r| > 0 {
      r := r + [' '];
    }
    r := r + [Lower(b)];
  }

  /** The index loop of the source computes the reference form, and its final trim is a no-op. */
  method Normalize(input: Bytes) returns (out: Bytes)
    ensures out == Norm(input)
  {
    out := [];
    var pendingSpace := false;
    var i := 0;
    ghost var stripped: Bytes := [];
    StartReduced(input);
    while i < |input|
      invariant 0 <= i <= |input| && Reduced(input, i, stripped)
      invariant out == Squeeze(stripped)
      invariant pendingSpace <==> stripped != [] && IsSpace(Last(stripped))
    {
      hide Reduced, Squeeze, AfterClose;
      var b := input[i];
      if b == '/' && i + 1 < |input| && input[i + 1] == '*' {
        ghost var open := i;
        i := FindClose(input, i + 2);
        if i + 1 >= |input| {
          ReduceComment(input, open, stripped, |input|);
          i := |input|;
          break;
        }
        i := i + 2;
        ReduceComment(input, open, stripped, i);
        pendingSpace := true;
        SqueezeSnoc(stripped, ' ');
        stripped := stripped + [' '];
        continue;
      }
      ReducePlain(input, i, stripped);
      if IsSpace(b) {
        pendingSpace := true;
        SqueezeSnoc(stripped, b);
      } else {
        out := AppendVisible(out, pendingSpace, b, stripped);
        pendingSpace := false;
      }
      stripped := stripped + [b];
      i := i + 1;
    }
    EndReduced(input, stripped);
    out := TrimTrailingSpace(out);
  }

  lemma StartReduced(input: Bytes)
    ensures Reduced(input, 0, []) && Squeeze([]) == []
  {
    assert input[0..] == input && [] + StripComments(input) == StripComments(input);
  }

  lemma EndReduced(input: Bytes, stripped: Bytes)
    requires Reduced(input, |input|, stripped)
    ensures Squeeze(stripped) == Norm(input) && (Norm(input) != [] ==> Last(Norm(input)) != ' ')
  {
    assert input[|input|..] == [] && stripped + [] == stripped;
    NormNeverEndsInSpace(input);
  }

  lemma NormNeverEndsInSpace(x: Bytes)
    ensures Norm(x) != [] ==> Norm(x)[0] != ' ' && Last(Norm(x)) != ' '
  {
    NormalForms(x);
  }

  // ---- The streaming form: one byte at a time, a slash held back. ----

  datatype Mode = Plain | Slash | Comment(star: bool)

  datatype Stream = Stream(mode: Mode, stripped: Bytes)

  const START := Stream(Plain, [])

  function Push(s: Stream, b: char): Stream {
    match s.mode
    case Comment(star) =>
      if star && b == '/' then Stream(Plain, s.stripped + [' ']) else s.(mode := Comment(b == '*'))
    case Slash =>
      if b == '*' then s.(mode := Comment(false))
      else if b == '/' then s.(stripped := s.stripped + ['/'])
      else Stream(Plain, s.stripped + ['/'] + [b])
    case Plain =>
      if b == '/' then s.(mode := Slash) else s.(stripped := s.stripped + [b])
  }

  function PushAll(raw: Bytes): Stream {
    if raw == [] then START else Push(PushAll(Init(raw)), Last(raw))
  }

  /** What the bytes `c` still to come add to the stripped text in a given mode. */
  function Residue(mode: Mode, c: Bytes): Bytes {
    match mode
    case Plain => StripComments(c)
    case Slash => StripComments(['/'] + c)
    case Comment(star) => CommentRest((if star then ['*'] else []) + c)
  }

  /** The text already sent to the automaton. */
  function Emitted(raw: Bytes): Bytes {
    Squeeze(PushAll(raw).stripped)
  }

  lemma AfterCloseSkips(b: char, c: Bytes)
    ensures b != '*' ==> AfterClose([b] + c) == AfterClose(c)
    ensures AfterClose(['*'] + ([b] + c)) == if b == '/' then Some(c) else AfterClose([b] + c)
  {
    var bc := [b] + c;
    assert bc[1..] == c;
    var x := ['*'] + bc;
    assert x[1..] == bc && x[2..] == c;
  }

  lemma StripSlash(b: char, c: Bytes)
    ensures StripComments(['/'] + ([b] + c)) == if b == '*' then CommentRest(c) else ['/'] + StripComments([b] + c)
    ensures b != '/' ==> StripComments([b] + c) == [b] + StripComments(c)
  {
    var bc := [b] + c;
    assert bc[1..] == c;
    var x := ['/'] + bc;
    assert x[1..] == bc && x[2..] == c;
  }

  lemma PushResidue(s: Stream, b: char, c: Bytes)
    ensures s.stripped + Residue(s.mode, [b] + c) == Push(s, b).stripped + Residue(Push(s, b).mode, c)
  {
    var bc := [b] + c;
    assert [] + bc == bc && [] + c == c;
    AfterCloseSkips(b, c);
    StripSlash(b, c);
    match s.mode
    case Comment(star) =>
      Assoc(s.stripped, [' '], StripComments(c));
    case Slash =>
      Assoc(s.stripped, ['/'], StripComments(bc));
      Assoc(s.stripped + ['/'], [b], StripComments(c));
    case Plain =>
      Assoc(s.stripped, [b], StripComments(c));
  }

  /** Streaming refines batch: nothing emitted is lost, whatever comes next. */
  lemma {:induction false} StreamRefinesBatch(raw: Bytes, c: Bytes)
    ensures StripComments(raw + c) == PushAll(raw).stripped + Residue(PushAll(raw).mode, c)
    decreases |raw|
  {
    if raw == [] {
      assert raw + c == c;
    } else {
      StreamRefinesBatch(Init(raw), [Last(raw)] + c);
      assert raw + c == Init(raw) + ([Last(raw)] + c);
      PushResidue(PushAll(Init(raw)), Last(raw), c);
    }
  }

  /** At every moment the emitted text is a prefix of the normal form of every continuation. */
  lemma EmittedIsPrefix(raw: Bytes, c: Bytes)
    ensures Emitted(raw) <= Norm(raw + c)
  {
    StreamRefinesBatch(raw, c);
    SqueezeGrows(PushAll(raw).stripped, Residue(PushAll(raw).mode, c));
  }

  lemma EmittedShrinks(raw: Bytes)
    ensures |Emitted(raw)| <= |raw|
  {
    EmittedIsPrefix(raw, []);
    assert raw + [] == raw;
    NormShrinks(raw);
  }

  /** Closing the stream releases exactly a held-back slash. */
  lemma ClosedStream(raw: Bytes)
    ensures Norm(raw) == Squeeze(PushAll(raw).stripped + (if PushAll(raw).mode.Slash? then ['/'] else []))
  {
    StreamRefinesBatch(raw, []);
    assert raw + [] == raw;
    assert ['/'] + [] == ['/'];
    assert StripComments(['/']) == ['/'] + StripComments([]);
  }

  lemma EmittedGrows(raw: Bytes, more: Bytes)
    ensures Emitted(raw) <= Emitted(raw + more)
    decreases |more|
  {
    if more == [] {
      assert raw + more == raw;
    } else {
      EmittedGrows(raw, Init(more));
      assert raw + more == (raw + Init(more)) + [Last(more)];
      InitAppend(raw + Init(more), Last(more));
      var s := PushAll(raw + Init(more));
      var d := Push(s, Last(more)).stripped[|s.stripped|..];
      assert Push(s, Last(more)).stripped == s.stripped + d;
      SqueezeGrows(s.stripped, d);
    }
  }
}
