/** The streaming scanner (security/waf/automaton.go:95-220): it normalizes byte by byte and drives the automaton. */
module Scanner {
  import opened Text
  import opened Rules
  import A = Automaton
  import N = Normalize

  datatype Match = Match(pattern: Bytes, field: string, ruleID: string)

  function Report(rule: Option<Rule>, field: string): Option<Match> {
    match rule
    case None => None
    case Some(r) => Some(Match(r.pattern, field, r.id))
  }

  /** One node of a finished automaton, in terms of its path. */
  lemma NodeFacts(a: A.Automaton, n: A.Node, b: char)
    requires a.Valid() && A.IsNode(a.graph, n)
    ensures [] in Trie(a.rules) && n.path in Trie(a.rules) && A.IsNode(a.graph, a.root) && a.root.path == []
    ensures n.path == [] <==> n == a.root
    ensures n.output == Output(a.rules, n.path)
    ensures n != a.root ==> n.fail != null && A.IsNode(a.graph, n.fail)
                            && n.fail.path == FailPath(Trie(a.rules), n.path)
    ensures b in n.next <==> n.path + [b] in Trie(a.rules)
    ensures b in n.next ==> A.IsNode(a.graph, n.next[b]) && n.next[b].path == n.path + [b]
  {
    assert A.Placed(a.rules, a.graph, n.path, b);
  }

  class Scanner {
    const automaton: A.Automaton
    var state: A.Node
    var pendingSpace: bool
    var pendingSlash: bool
    var inBlockComment: bool
    var pendingCommentStar: bool
    var emitted: bool

    ghost var raw: Bytes   // everything fed so far
    ghost var text: Bytes  // everything sent to the automaton so far
    ghost var hops: nat    // fail links followed so far

    /** The automaton is at the longest suffix of the emitted text; every fail hop was paid for by an emitted byte. */
    ghost predicate OnTrack()
      reads this, automaton.graph.repr
    {
      && automaton.Valid()
      && [] in Trie(automaton.rules)
      && A.IsNode(automaton.graph, state)
      && state.path == LongestSuffix(Trie(automaton.rules), text)
      && emitted == (text != [])
      && hops + |state.path| <= |text|
      && FirstMatch(automaton.rules, text) == None
    }

    /** The flags hold exactly the part of the stream that is still undecided. */
    ghost predicate Holds(s: N.Stream)
      reads this, automaton.graph.repr
    {
      && OnTrack()
      && text == N.Squeeze(s.stripped)
      && pendingSlash == s.mode.Slash?
      && inBlockComment == s.mode.Comment?
      && pendingCommentStar == (s.mode.Comment? && s.mode.star)
      && pendingSpace == (s.mode.Comment? || (s.stripped != [] && IsSpace(Last(s.stripped))))
    }

    ghost predicate Valid()
      reads this, automaton.graph.repr
    {
      Holds(N.PushAll(raw)) && |text| <= |raw|
    }

    constructor (a: A.Automaton)
      requires a.Valid()
      ensures Valid() && automaton == a && raw == [] && text == [] && hops == 0
    {
      automaton, state := a, a.root;
      pendingSpace, pendingSlash, inBlockComment, pendingCommentStar, emitted := false, false, false, false, false;
      raw, text, hops := [], [], 0;
      new;
      assert A.IsNode(a.graph, a.root);
    }

    /** Follows fail links until `b` can be consumed, then consumes it. */
    method Advance(b: char)
      requires automaton.Valid() && A.IsNode(automaton.graph, state) && [] in Trie(automaton.rules)
      modifies this`state, this`hops
      ensures A.IsNode(automaton.graph, state)
      ensures state.path == Follow(Trie(automaton.rules), old(state.path), b)
      ensures hops + |state.path| <= old(hops) + |old(state.path)| + 1
    {
      NodeFacts(automaton, state, b);
      while state != automaton.root && b !in state.next
        invariant A.IsNode(automaton.graph, state)
        invariant Follow(Trie(automaton.rules), state.path, b) == Follow(Trie(automaton.rules), old(state.path), b)
        invariant hops + |state.path| <= old(hops) + |old(state.path)|
        decreases |state.path|
      {
        NodeFacts(automaton, state, b);
        state := state.fail;
        hops := hops + 1;
      }
      NodeFacts(automaton, state, b);
      if b in state.next {
        state := state.next[b];
      }
    }

    /** Sends one normalized byte to the automaton. */
    method FeedNormalized(field: string, b: char) returns (m: Option<Match>)
      requires OnTrack()
      modifies this`state, this`emitted, this`text, this`hops
      ensures text == old(text) + [b] && hops <= |text|
      ensures m == Report(FirstMatch(automaton.rules, text), field)
      ensures m == None ==> OnTrack()
    {
      emitted := true;
      Advance(b);
      MatchStep(automaton.rules, text, b);
      NodeFacts(automaton, state, b);
      text := text + [b];
      if state.output.Some? {
        var rule := state.output.value;
        return Some(Match(rule.pattern, field, rule.id));
      }
      return None;
    }

    /** Sends the visible byte `b`, preceded by the pending space if anything was emitted before. */
    method EmitVisible(field: string, b: char, ghost stripped: Bytes) returns (m: Option<Match>)
      requires OnTrack() && text == N.Squeeze(stripped) && !IsSpace(b)
      requires pendingSpace == (stripped != [] && IsSpace(Last(stripped)))
      modifies this`state, this`emitted, this`text, this`hops, this`pendingSpace
      ensures m == Report(FirstMatch(automaton.rules, N.Squeeze(stripped + [b])), field)
      ensures m == None ==> OnTrack() && text == N.Squeeze(stripped + [b]) && !pendingSpace
      ensures hops <= |text| <= |N.Squeeze(stripped + [b])|
    {
      N.SqueezeSnoc(stripped, b);
      ghost var goal := N.Squeeze(stripped + [b]);
      if pendingSpace && emitted {
        m := FeedNormalized(field, ' ');
        if m.Some? {
          FirstMatchPersists(automaton.rules, text, goal);
          return;
        }
      }
      pendingSpace := false;
      m := FeedNormalized(field, Lower(b));
      assert text == goal;
    }

    /** One byte outside comments and with no slash held back. */
    method FeedPlain(field: string, b: char, ghost s: N.Stream) returns (m: Option<Match>)
      requires Holds(s) && s.mode.Plain?
      modifies this`state, this`emitted, this`text, this`hops, this`pendingSpace, this`pendingSlash
      ensures m == Report(FirstMatch(automaton.rules, N.Squeeze(N.Push(s, b).stripped)), field)
      ensures m == None ==> Holds(N.Push(s, b))
      ensures hops <= |text| <= |N.Squeeze(N.Push(s, b).stripped)|
    {
      if b == '/' {
        pendingSlash := true;
        return None;
      }
      N.SqueezeSnoc(s.stripped, b);
      InitAppend(s.stripped, b);
      if IsSpace(b) {
        pendingSpace := true;
        return None;
      }
      m := EmitVisible(field, b, s.stripped);
    }

    /** One byte inside a comment: it ends at the first star followed by a slash. */
    method FeedComment(b: char, ghost s: N.Stream)
      requires Holds(s) && s.mode.Comment?
      modifies this`inBlockComment, this`pendingCommentStar, this`pendingSpace
      ensures Holds(N.Push(s, b)) && N.Squeeze(N.Push(s, b).stripped) == N.Squeeze(s.stripped)
    {
      hide FirstMatch, N.Squeeze;
      if pendingCommentStar && b == '/' {
        inBlockComment := false;
        pendingCommentStar := false;
        pendingSpace := true;
        N.SqueezeSnoc(s.stripped, ' ');
        return;
      }
      pendingCommentStar := b == '*';
    }

    /** One byte after a held-back slash: either a comment opens, or the slash was visible text. */
    method FeedAfterSlash(field: string, b: char, ghost s: N.Stream) returns (m: Option<Match>)
      requires Holds(s) && s.mode.Slash?
      modifies this
      ensures raw == old(raw)
      ensures m == Report(FirstMatch(automaton.rules, N.Squeeze(N.Push(s, b).stripped)), field)
      ensures m == None ==> Holds(N.Push(s, b))
      ensures hops <= |text| <= |N.Squeeze(N.Push(s, b).stripped)|
    {
      hide FirstMatch, N.Squeeze;
      pendingSlash := false;
      if b == '*' {
        inBlockComment := true;
        pendingSpace := true;
        return None;
      }
      m := EmitVisible(field, '/', s.stripped);
      ghost var plain := N.Stream(N.Plain, s.stripped + ['/']);
      assert N.Push(plain, b) == N.Push(s, b);
      if m.Some? {
        ReleasedSlash(automaton.rules, plain, b);
        return;
      }
      m := FeedPlain(field, b, plain);
    }

    /** One raw byte: comments and white space are held back, a slash waits for the byte after it. */
    method FeedRaw(field: string, b: char) returns (m: Option<Match>)
      requires Valid()
      modifies this
      ensures raw == old(raw) + [b]
      ensures m == Report(ScanOpen(automaton.rules, raw), field)
      ensures m == None ==> Valid()
      ensures hops <= |text| <= |raw|
    {
      ghost var s := N.PushAll(raw);
      raw := raw + [b];
      N.EmittedShrinks(raw);
      InitAppend(old(raw), b);
      assert N.PushAll(raw) == N.Push(s, b);
      if inBlockComment {
        FeedComment(b, s);
        m := None;
      } else if pendingSlash {
        m := FeedAfterSlash(field, b, s);
      } else {
        m := FeedPlain(field, b, s);
      }
    }

    /** Feeds a piece of the value and stops at the first report. */
    method Feed(field: string, data: Bytes) returns (m: Option<Match>)
      requires Valid()
      modifies this
      ensures m == Report(ScanOpen(automaton.rules, old(raw) + data), field)
      ensures m == None ==> Valid() && raw == old(raw) + data
      ensures hops <= |text| <= |old(raw)| + |data|
    {
      ghost var before := raw;
      assert before + data[..0] == before;
      for i := 0 to |data|
        invariant Valid() && raw == before + data[..i]
      {
        AppendStep(before, data, i);
        m := FeedRaw(field, data[i]);
        if m.Some? {
          ReportInPiece(automaton.rules, before, data, i + 1);
          return;
        }
      }
      assert data[..|data|] == data;
      return None;
    }

    /** Ends the value: a held-back slash is released, everything else pending is dropped.
      * Over the whole scan at most one fail link per normalized byte was followed. */
    method Finish(field: string) returns (m: Option<Match>)
      requires Valid()
      modifies this
      ensures raw == old(raw) && m == Report(Scan(automaton.rules, raw), field)
      ensures m == None ==> text == N.Norm(raw)
      ensures hops <= |text| <= |N.Norm(raw)| <= |raw|
    {
      hide N.PushAll, N.Squeeze, N.Norm, FirstMatch;
      N.ClosedStream(raw);
      N.NormShrinks(raw);
      ghost var stripped := N.PushAll(raw).stripped;
      if pendingSlash {
        pendingSlash := false;
        m := EmitVisible(field, '/', stripped);
        if m.Some? {
          return;
        }
      } else {
        assert stripped + [] == stripped;
      }
      pendingSpace := false;
      inBlockComment := false;
      pendingCommentStar := false;
      return None;
    }
  }

  /** Scanning a value delivered in any pieces reports what the rule list prescribes for the whole value. */
  method ScanParts(a: A.Automaton, field: string, parts: seq<Bytes>) returns (m: Option<Match>)
    requires a.Valid()
    ensures m == Report(Scan(a.rules, Flatten(parts)), field)
  {
    var scanner := new Scanner(a);
    for i := 0 to |parts|
      invariant scanner.Valid() && scanner.automaton == a && fresh(scanner)
      invariant scanner.raw == Flatten(parts[..i])
    {
      assert parts[..i + 1] == parts[..i] + [parts[i]];
      FlattenSnoc(parts[..i], parts[i]);
      m := scanner.Feed(field, parts[i]);
      if m.Some? {
        assert parts == parts[..i + 1] + parts[i + 1..];
        FlattenAppend(parts[..i + 1], parts[i + 1..]);
        EarlyReportIsFinal(a.rules, Flatten(parts[..i + 1]), Flatten(parts[i + 1..]));
        return;
      }
    }
    assert parts[..|parts|] == parts;
    m := scanner.Finish(field);
  }

  lemma ReleasedSlash(rules: seq<Rule>, s: N.Stream, b: char)
    requires s.mode.Plain? && FirstMatch(rules, N.Squeeze(s.stripped)).Some?
    ensures FirstMatch(rules, N.Squeeze(N.Push(s, b).stripped)) == FirstMatch(rules, N.Squeeze(s.stripped))
    ensures |N.Squeeze(s.stripped)| <= |N.Squeeze(N.Push(s, b).stripped)|
  {
    N.SqueezeGrows(s.stripped, [b]);
    FirstMatchPersists(rules, N.Squeeze(s.stripped), N.Squeeze(N.Push(s, b).stripped));
  }

  lemma AppendStep(a: Bytes, d: Bytes, i: nat)
    requires i < |d|
    ensures a + d[..i] + [d[i]] == a + d[..i + 1]
  {
  }

  lemma ReportInPiece(rules: seq<Rule>, a: Bytes, d: Bytes, i: nat)
    requires i <= |d| && ScanOpen(rules, a + d[..i]).Some?
    ensures ScanOpen(rules, a + d) == ScanOpen(rules, a + d[..i])
  {
    assert a + d == (a + d[..i]) + d[i..];
    EarlyReportIsFinal(rules, a + d[..i], d[i..]);
  }

  /** One byte further: the automaton's move and its verdict. */
  lemma MatchStep(rules: seq<Rule>, text: Bytes, b: char)
    requires [] in Trie(rules)
    ensures Follow(Trie(rules), LongestSuffix(Trie(rules), text), b) == LongestSuffix(Trie(rules), text + [b])
    ensures FirstMatch(rules, text) == None ==>
              FirstMatch(rules, text + [b]) == Output(rules, LongestSuffix(Trie(rules), text + [b]))
  {
    TrieIsPrefixClosed(rules, |rules|);
    FollowIsLongest(Trie(rules), text, b);
    InitAppend(text, b);
  }
}
