/** What a rule list means: which rule is reported for which text, and the automaton's tables
  * (trie, fail links, outputs) described on strings (security/waf/automaton.go). */
module Rules {
  import opened Text
  import opened HttpText
  import N = Normalize

  datatype Rule = Rule(id: string, pattern: Bytes)

  function ZeroPad(value: nat, width: nat): string {
    var text := if value == 0 then "0" else Decimal(value);
    seq(if |text| < width then width - |text| else 0, _ => '0') + text
  }

  function Decimal(value: nat): string {
    if value == 0 then "" else Decimal(value / 10) + [('0' as int + value % 10) as char]
  }

  function RuleId(index: nat): string {
    "MTWS-WAF-" + ZeroPad(index, 4)
  }

  /** `id` identifies rule number `i`: by its own identifier, or by its place in the list in at least four digits. */
  predicate Identifies(rule: Rule, i: nat, id: string) {
    if rule.id != "" then id == rule.id
    else
      && |id| >= 13 && id[..9] == "MTWS-WAF-" && IsDecimal(id[9..]) && DecimalValue(id[9..]) == i + 1
      && (|id| == 13 || id[9] != '0')
  }

  lemma {:induction false} DecimalIs(value: nat)
    requires value > 0
    ensures IsDecimal(Decimal(value)) && DecimalValue(Decimal(value)) == value && Decimal(value)[0] != '0'
  {
    var d := ('0' as int + value % 10) as char;
    InitAppend(Decimal(value / 10), d);
    if value >= 10 {
      DecimalIs(value / 10);
    }
  }

  lemma {:induction false} LeadingZeros(n: nat, s: string)
    requires IsDecimal(s)
    ensures IsDecimal(seq(n, _ => '0') + s) && DecimalValue(seq(n, _ => '0') + s) == DecimalValue(s)
    decreases n, |s|
  {
    var zeros := seq(n, _ => '0');
    var t := zeros + s;
    assert Init(t) == zeros + Init(s) && Last(t) == Last(s);
    if |s| > 1 {
      LeadingZeros(n, Init(s));
    } else {
      assert Init(s) == [] && zeros + [] == zeros;
      ZerosAreZero(n);
    }
  }

  lemma {:induction false} ZerosAreZero(n: nat)
    ensures DecimalValue(seq(n, _ => '0')) == 0
  {
    if n > 0 {
      assert Init(seq(n, _ => '0')) == seq(n - 1, _ => '0');
      ZerosAreZero(n - 1);
    }
  }

  /** What is stored for a rule has its pattern and identifies it. */
  lemma EntryIdentifies(rules: seq<Rule>, i: nat)
    requires i < |rules|
    ensures Entry(rules, i).pattern == rules[i].pattern && Identifies(rules[i], i, Entry(rules, i).id)
  {
    if rules[i].id == "" {
      var text := Decimal(i + 1);
      DecimalIs(i + 1);
      LeadingZeros(if |text| < 4 then 4 - |text| else 0, text);
      var id := RuleId(i + 1);
      assert id[9..] == ZeroPad(i + 1, 4) && id[..9] == "MTWS-WAF-";
      assert |text| >= 4 ==> ZeroPad(i + 1, 4) == text;
    }
  }

  /** Rules with an empty pattern are skipped. */
  predicate Live(rules: seq<Rule>, i: int) {
    0 <= i < |rules| && rules[i].pattern != []
  }

  /** The i-th rule as stored, with a generated identifier when it has none. */
  function Entry(rules: seq<Rule>, i: int): Rule
    requires 0 <= i < |rules|
  {
    if rules[i].id == "" then rules[i].(id := RuleId(i + 1)) else rules[i]
  }

  function Key(rules: seq<Rule>, i: int): Bytes
    requires 0 <= i < |rules|
  {
    N.Norm(rules[i].pattern)
  }

  predicate HasKey(rules: seq<Rule>, i: int, p: Bytes) {
    Live(rules, i) && Key(rules, i) == p
  }

  /** The rule owning the normal form `p`: among equals the last one in the list. */
  function Own(rules: seq<Rule>, p: Bytes): Option<Rule> {
    OwnUpTo(rules, |rules|, p)
  }

  function OwnUpTo(rules: seq<Rule>, n: nat, p: Bytes): Option<Rule>
    requires n <= |rules|
  {
    if n == 0 then None
    else if HasKey(rules, n - 1, p) then Some(Entry(rules, n - 1))
    else OwnUpTo(rules, n - 1, p)
  }

  lemma {:induction false} OwnIsLast(rules: seq<Rule>, n: nat, p: Bytes)
    requires n <= |rules|
    ensures OwnUpTo(rules, n, p).None? ==> forall i :: 0 <= i < n ==> !HasKey(rules, i, p)
    ensures OwnUpTo(rules, n, p).Some? ==>
              exists i :: 0 <= i < n && HasKey(rules, i, p) && OwnUpTo(rules, n, p).value == Entry(rules, i)
                          && forall j :: i < j < n ==> !HasKey(rules, j, p)
  {
    if n > 0 {
      OwnIsLast(rules, n - 1, p);
    }
  }

  // ---- The trie and its longest-suffix structure. ----

  function Prefixes(w: Bytes): set<Bytes> {
    if w == [] then {[]} else Prefixes(Init(w)) + {w}
  }

  lemma {:induction false} PrefixesArePrefixes(w: Bytes, p: Bytes)
    ensures p in Prefixes(w) <==> p <= w
    ensures p in Prefixes(w) && p != [] ==> Init(p) in Prefixes(w)
  {
    if w != [] {
      PrefixesArePrefixes(Init(w), p);
      if p <= w && |p| == |w| {
        assert p == w;
        PrefixesArePrefixes(Init(w), Init(w));
      }
    }
  }

  function Trie(rules: seq<Rule>): set<Bytes> {
    TrieUpTo(rules, |rules|)
  }

  /** All prefixes of the normal forms of the first `n` rules, and the root. */
  function TrieUpTo(rules: seq<Rule>, n: nat): set<Bytes>
    requires n <= |rules|
  {
    if n == 0 then {[]}
    else if Live(rules, n - 1) then TrieUpTo(rules, n - 1) + Prefixes(Key(rules, n - 1))
    else TrieUpTo(rules, n - 1)
  }

  predicate PrefixClosed(t: set<Bytes>) {
    [] in t && forall p {:trigger Init(p)} :: p in t && p != [] ==> Init(p) in t
  }

  lemma {:induction false} TrieIsPrefixClosed(rules: seq<Rule>, n: nat)
    requires n <= |rules|
    ensures PrefixClosed(TrieUpTo(rules, n))
  {
    if n > 0 {
      TrieIsPrefixClosed(rules, n - 1);
      if Live(rules, n - 1) {
        var w := Key(rules, n - 1);
        PrefixesArePrefixes(w, []);
        forall p | p in Prefixes(w) && p != [] ensures Init(p) in Prefixes(w) {
          PrefixesArePrefixes(w, p);
        }
      }
    }
  }

  lemma {:induction false} OwnersAreInTrie(rules: seq<Rule>, n: nat, p: Bytes)
    requires n <= |rules| && OwnUpTo(rules, n, p).Some?
    ensures p in TrieUpTo(rules, n)
  {
    if HasKey(rules, n - 1, p) {
      PrefixesArePrefixes(p, p);
    } else {
      OwnersAreInTrie(rules, n - 1, p);
    }
  }

  lemma SuffixOfTail(q: Bytes, w: Bytes)
    requires w != [] && IsSuffix(q, w)
    ensures q == w || IsSuffix(q, w[1..])
  {
    if |q| == |w| {
      assert w[0..] == w;
    }
  }

  /** The longest suffix of `w` that is a path of the trie. */
  function LongestSuffix(t: set<Bytes>, w: Bytes): (r: Bytes)
    requires [] in t
    ensures r in t && |r| <= |w|
  {
    if w in t then w else LongestSuffix(t, w[1..])
  }

  lemma {:induction false} LongestSuffixIsLongest(t: set<Bytes>, w: Bytes, q: Bytes)
    requires [] in t
    ensures IsSuffix(LongestSuffix(t, w), w)
    ensures q in t && IsSuffix(q, w) ==> IsSuffix(q, LongestSuffix(t, w))
  {
    if w !in t {
      LongestSuffixIsLongest(t, w[1..], q);
      if q in t && IsSuffix(q, w) {
        SuffixOfTail(q, w);
      }
    }
  }

  /** Where the fail link of a non-root path points: its longest proper suffix in the trie. */
  function FailPath(t: set<Bytes>, p: Bytes): (r: Bytes)
    requires [] in t && p != []
    ensures r in t && |r| < |p|
  {
    LongestSuffix(t, p[1..])
  }

  /** Following fail links until the byte `b` can be consumed. */
  function Follow(t: set<Bytes>, p: Bytes, b: char): Bytes
    requires [] in t
    decreases |p|
  {
    if p + [b] in t then p + [b]
    else if p == [] then []
    else Follow(t, FailPath(t, p), b)
  }

  /** Following fail links from the longest suffix of a text gives the longest suffix of the extended text. */
  lemma {:induction false} FollowIsLongest(t: set<Bytes>, w: Bytes, b: char)
    requires PrefixClosed(t)
    ensures Follow(t, LongestSuffix(t, w), b) == LongestSuffix(t, w + [b])
    decreases |w|
  {
    InitAppend(w, b);
    if w == [] {
      assert (w + [b])[1..] == [];
    } else {
      assert (w + [b])[1..] == w[1..] + [b];
      if w + [b] !in t {
        FollowIsLongest(t, w[1..], b);
      }
    }
  }

  lemma FailOfChild(t: set<Bytes>, p: Bytes, b: char)
    requires PrefixClosed(t)
    ensures FailPath(t, p + [b]) == if p == [] then [] else Follow(t, FailPath(t, p), b)
  {
    if p == [] {
      assert (p + [b])[1..] == [];
    } else {
      assert (p + [b])[1..] == p[1..] + [b];
      FollowIsLongest(t, p[1..], b);
    }
  }

  // ---- Outputs and the reported rule. ----

  /** The owner of the longest non-empty suffix of `w` that is somebody's normal form. */
  function BestSuffix(rules: seq<Rule>, w: Bytes): Option<Rule> {
    if w == [] then None
    else if Own(rules, w).Some? then Own(rules, w)
    else BestSuffix(rules, w[1..])
  }

  /** What the node of path `p` reports. */
  function Output(rules: seq<Rule>, p: Bytes): Option<Rule> {
    if p == [] then Own(rules, []) else BestSuffix(rules, p)
  }

  lemma {:induction false} BestSuffixOnTrie(rules: seq<Rule>, w: Bytes)
    requires [] in Trie(rules)
    ensures BestSuffix(rules, w) == BestSuffix(rules, LongestSuffix(Trie(rules), w))
  {
    if w !in Trie(rules) {
      if Own(rules, w).Some? {
        OwnersAreInTrie(rules, |rules|, w);
      }
      BestSuffixOnTrie(rules, w[1..]);
    }
  }

  /** How an output is inherited: own rule first, else that of a non-root fail node, else nothing. */
  lemma OutputIsInherited(rules: seq<Rule>, p: Bytes)
    requires [] in Trie(rules) && p != []
    ensures Output(rules, p) ==
            if Own(rules, p).Some? then Own(rules, p)
            else if FailPath(Trie(rules), p) == [] then None
            else Output(rules, FailPath(Trie(rules), p))
  {
    BestSuffixOnTrie(rules, p[1..]);
  }

  /** What the automaton reports right after the last byte of `text`. */
  function Verdict(rules: seq<Rule>, text: Bytes): Option<Rule> {
    TrieIsPrefixClosed(rules, |rules|);
    Output(rules, LongestSuffix(Trie(rules), text))
  }

  /** The first report while `text` is fed byte by byte. */
  function FirstMatch(rules: seq<Rule>, text: Bytes): Option<Rule> {
    if text == [] then None
    else
      var earlier := FirstMatch(rules, Init(text));
      if earlier.Some? then earlier else Verdict(rules, text)
  }

  /** The answer for a whole scanned value. */
  function Scan(rules: seq<Rule>, input: Bytes): Option<Rule> {
    FirstMatch(rules, N.Norm(input))
  }

  /** The answer as long as the value may still go on. */
  function ScanOpen(rules: seq<Rule>, raw: Bytes): Option<Rule> {
    FirstMatch(rules, N.Emitted(raw))
  }

  lemma {:induction false} FirstMatchPersists(rules: seq<Rule>, a: Bytes, b: Bytes)
    requires a <= b && FirstMatch(rules, a).Some?
    ensures FirstMatch(rules, b) == FirstMatch(rules, a)
    decreases |b|
  {
    if a != b {
      FirstMatchPersists(rules, a, Init(b));
    } else {
      assert a == b;
    }
  }

  /** A report made before the end of the input is the report for every continuation. */
  lemma EarlyReportIsFinal(rules: seq<Rule>, raw: Bytes, c: Bytes)
    requires ScanOpen(rules, raw).Some?
    ensures ScanOpen(rules, raw + c) == ScanOpen(rules, raw) == Scan(rules, raw + c)
  {
    N.EmittedIsPrefix(raw, c);
    N.EmittedGrows(raw, c);
    FirstMatchPersists(rules, N.Emitted(raw), N.Norm(raw + c));
    FirstMatchPersists(rules, N.Emitted(raw), N.Emitted(raw + c));
  }

  // ---- The tables an automaton for a rule list has to hold. ----

  /** The contents of the nodes, by path: own rules, fail links (the root's is unused) and final outputs. */
  datatype Table = Table(trie: set<Bytes>, own: map<Bytes, Option<Rule>>,
                         fail: map<Bytes, Bytes>, output: map<Bytes, Option<Rule>>)

  ghost function TableOf(rules: seq<Rule>): Table {
    TrieIsPrefixClosed(rules, |rules|);
    Table(Trie(rules),
          map p | p in Trie(rules) :: Own(rules, p),
          map p | p in Trie(rules) :: if p == [] then [] else FailPath(Trie(rules), p),
          map p | p in Trie(rules) :: Output(rules, p))
  }

  ghost predicate Sized(tab: Table) {
    && PrefixClosed(tab.trie)
    && tab.own.Keys == tab.fail.Keys == tab.output.Keys == tab.trie
    && forall p {:trigger tab.fail[p]} :: p in tab.trie && p != [] ==> tab.fail[p] in tab.trie && |tab.fail[p]| < |p|
  }

  /** Follow, by table look-up. */
  ghost function Walk(tab: Table, p: Bytes, b: char): Bytes
    requires Sized(tab) && p in tab.trie
    decreases |p|
  {
    if p + [b] in tab.trie then p + [b] else if p == [] then [] else Walk(tab, tab.fail[p], b)
  }

  ghost predicate FailRule(tab: Table, p: Bytes, b: char)
    requires Sized(tab)
  {
    p in tab.trie && p + [b] in tab.trie ==>
      tab.fail[p + [b]] == if p == [] then [] else Walk(tab, tab.fail[p], b)
  }

  ghost predicate OutputRule(tab: Table, p: Bytes)
    requires Sized(tab)
  {
    p in tab.trie ==>
      tab.output[p] == if p == [] || tab.own[p].Some? then tab.own[p]
                       else if tab.fail[p] == [] then None else tab.output[tab.fail[p]]
  }

  ghost predicate Coherent(tab: Table) {
    && Sized(tab)
    && (forall p, b :: FailRule(tab, p, b))
    && (forall p :: OutputRule(tab, p))
  }

  lemma {:induction false} WalkIsFollow(rules: seq<Rule>, p: Bytes, b: char)
    requires Sized(TableOf(rules)) && p in Trie(rules)
    ensures Walk(TableOf(rules), p, b) == Follow(Trie(rules), p, b)
    decreases |p|
  {
    if p + [b] !in Trie(rules) && p != [] {
      WalkIsFollow(rules, FailPath(Trie(rules), p), b);
    }
  }

  /** Fail links and outputs can be computed level by level from those of shorter paths. */
  lemma TableIsCoherent(rules: seq<Rule>)
    ensures Coherent(TableOf(rules))
  {
    var tab, t := TableOf(rules), Trie(rules);
    TrieIsPrefixClosed(rules, |rules|);
    forall p, b ensures FailRule(tab, p, b) {
      if p in t && p + [b] in t {
        FailOfChild(t, p, b);
        if p != [] {
          WalkIsFollow(rules, FailPath(t, p), b);
        }
      }
    }
    forall p ensures OutputRule(tab, p) {
      if p in t && p != [] {
        OutputIsInherited(rules, p);
      }
    }
  }

  // ---- Meaning of the report. ----

  /** Some rule has an empty normal form (all white space and comments), which puts an output on the root. */
  ghost predicate RootReports(rules: seq<Rule>) {
    exists i :: HasKey(rules, i, [])
  }

  /** Some non-empty normal form occurs in the text. */
  ghost predicate SomeKeyOccurs(rules: seq<Rule>, text: Bytes) {
    exists i :: Live(rules, i) && Key(rules, i) != [] && Occurs(Key(rules, i), text)
  }

  /** Some non-empty normal form ends exactly where the text ends. */
  ghost predicate SomeKeyEnds(rules: seq<Rule>, text: Bytes) {
    exists i :: Live(rules, i) && Key(rules, i) != [] && IsSuffix(Key(rules, i), text)
  }

  /** Feeding the text brings the automaton back to its root at some point. */
  ghost predicate VisitsRoot(rules: seq<Rule>, text: Bytes) {
    exists k :: AtRoot(rules, text, k)
  }

  ghost predicate AtRoot(rules: seq<Rule>, text: Bytes, k: int) {
    0 < k <= |text| && (forall q :: q in Trie(rules) && IsSuffix(q, text[..k]) ==> q == [])
  }

  lemma {:induction false} BestSuffixMeaning(rules: seq<Rule>, w: Bytes)
    ensures BestSuffix(rules, w).Some? <==> SomeKeyEnds(rules, w)
    ensures BestSuffix(rules, w).Some? ==>
              exists i :: Live(rules, i) && Key(rules, i) != [] && IsSuffix(Key(rules, i), w)
                          && BestSuffix(rules, w).value == Entry(rules, i) && LongestLast(rules, w, i)
  {
    if w != [] {
      OwnIsLast(rules, |rules|, w);
      var rest := w[1..];
      if Own(rules, w).Some? {
        var i :| 0 <= i < |rules| && HasKey(rules, i, w) && Own(rules, w).value == Entry(rules, i)
                 && forall j :: i < j < |rules| ==> !HasKey(rules, j, w);
        assert IsSuffix(Key(rules, i), w);
        assert LongestLast(rules, w, i);
      } else {
        BestSuffixMeaning(rules, rest);
        forall i | Live(rules, i) && IsSuffix(Key(rules, i), w) ensures IsSuffix(Key(rules, i), rest) {
          SuffixOfTail(Key(rules, i), w);
          assert !HasKey(rules, i, w);
        }
        forall i | Live(rules, i) && IsSuffix(Key(rules, i), rest) ensures IsSuffix(Key(rules, i), w) {
        }
        if BestSuffix(rules, rest).Some? {
          var i :| Live(rules, i) && Key(rules, i) != [] && IsSuffix(Key(rules, i), rest)
                   && BestSuffix(rules, rest).value == Entry(rules, i) && LongestLast(rules, rest, i);
          assert IsSuffix(Key(rules, i), w);
          assert LongestLast(rules, w, i);
        }
      }
    }
  }

  /** Rule `i` has the longest normal form among those ending `w`, and is the last rule with it. */
  ghost predicate LongestLast(rules: seq<Rule>, w: Bytes, i: int) {
    && Live(rules, i)
    && (forall j :: Live(rules, j) && IsSuffix(Key(rules, j), w) ==> |Key(rules, j)| <= |Key(rules, i)|)
    && (forall j :: i < j ==> !HasKey(rules, j, Key(rules, i)))
  }

  /** A report falls due at `text` iff a key ends there, or the automaton is at a reporting root. */
  lemma VerdictMeaning(rules: seq<Rule>, text: Bytes)
    requires text != []
    ensures Verdict(rules, text).Some? <==>
            SomeKeyEnds(rules, text) || (RootReports(rules) && AtRoot(rules, text, |text|))
    ensures !RootReports(rules) ==> Verdict(rules, text) == BestSuffix(rules, text)
  {
    TrieIsPrefixClosed(rules, |rules|);
    var p := LongestSuffix(Trie(rules), text);
    BestSuffixOnTrie(rules, text);
    BestSuffixMeaning(rules, text);
    OwnIsLast(rules, |rules|, []);
    assert text[..|text|] == text;
    assert IsSuffix([], text);
    LongestSuffixIsLongest(Trie(rules), text, []);
    if p == [] {
      forall q | q in Trie(rules) && IsSuffix(q, text) ensures q == [] {
        LongestSuffixIsLongest(Trie(rules), text, q);
      }
    } else {
      assert !AtRoot(rules, text, |text|);
    }
  }

  lemma OccursSnoc(p: Bytes, text: Bytes)
    requires text != []
    ensures Occurs(p, text) <==> Occurs(p, Init(text)) || IsSuffix(p, text)
  {
    if Occurs(p, text) {
      var k :| OccursAt(p, text, k);
      if k + |p| < |text| {
        assert OccursAt(p, Init(text), k);
      } 
    }
    if Occurs(p, Init(text)) {
      var k :| OccursAt(p, Init(text), k);
      assert OccursAt(p, text, k);
    }
    if IsSuffix(p, text) {
      assert OccursAt(p, text, |text| - |p|);
    }
  }

  lemma SomeKeyOccursSnoc(rules: seq<Rule>, text: Bytes)
    requires text != []
    ensures SomeKeyOccurs(rules, text) <==> SomeKeyOccurs(rules, Init(text)) || SomeKeyEnds(rules, text)
  {
    forall i | Live(rules, i) {
      OccursSnoc(Key(rules, i), text);
    }
  }

  lemma VisitsRootSnoc(rules: seq<Rule>, text: Bytes)
    requires text != []
    ensures VisitsRoot(rules, text) <==> VisitsRoot(rules, Init(text)) || AtRoot(rules, text, |text|)
  {
    forall k | 0 < k < |text| ensures text[..k] == Init(text)[..k] {
    }
    if VisitsRoot(rules, text) {
      var k :| AtRoot(rules, text, k);
      assert k < |text| ==> AtRoot(rules, Init(text), k);
    }
    if VisitsRoot(rules, Init(text)) {
      var k :| AtRoot(rules, Init(text), k);
      assert AtRoot(rules, text, k);
    }
  }

  /** The exact condition, for every rule list: a report is made iff a non-empty normal form occurs in the
    * text, or a rule with an empty normal form exists and the automaton comes back to its root. */
  lemma {:induction false} ReportsExactly(rules: seq<Rule>, text: Bytes)
    ensures FirstMatch(rules, text).Some? <==>
            SomeKeyOccurs(rules, text) || (RootReports(rules) && VisitsRoot(rules, text))
  {
    if text == [] {
      forall i | Live(rules, i) && Key(rules, i) != [] ensures !Occurs(Key(rules, i), text) {
      }
    } else {
      ReportsExactly(rules, Init(text));
      VerdictMeaning(rules, text);
      SomeKeyOccursSnoc(rules, text);
      VisitsRootSnoc(rules, text);
    }
  }

  /** Where and for which rule the first report is made. */
  lemma {:induction false} FirstReport(rules: seq<Rule>, text: Bytes) returns (k: nat, i: nat)
    requires !RootReports(rules) && FirstMatch(rules, text).Some?
    ensures 0 < k <= |text| && Live(rules, i) && FirstMatch(rules, text).value == Entry(rules, i)
    ensures IsSuffix(Key(rules, i), text[..k]) && LongestLast(rules, text[..k], i)
    ensures !SomeKeyOccurs(rules, text[..k - 1])
  {
    var t := Init(text);
    if FirstMatch(rules, t).Some? {
      k, i := FirstReport(rules, t);
      assert text[..k] == t[..k] && text[..k - 1] == t[..k - 1];
    } else {
      k := |text|;
      assert text[..k] == text && text[..k - 1] == t;
      ReportsExactly(rules, t);
      VerdictMeaning(rules, text);
      BestSuffixMeaning(rules, text);
      i :| Live(rules, i) && Key(rules, i) != [] && IsSuffix(Key(rules, i), text)
           && BestSuffix(rules, text).value == Entry(rules, i) && LongestLast(rules, text, i);
    }
  }

  // ---- The same in terms of the rule list alone. ----

  /** Rule `i` has a pattern whose normal form ends `text`. */
  predicate EndsWith(rules: seq<Rule>, i: nat, text: Bytes) {
    i < |rules| && rules[i].pattern != [] && IsSuffix(N.Norm(rules[i].pattern), text)
  }

  /** Rule `i` has a pattern whose normal form is contained in `text`. */
  ghost predicate Contained(rules: seq<Rule>, i: nat, text: Bytes) {
    i < |rules| && rules[i].pattern != [] && Occurs(N.Norm(rules[i].pattern), text)
  }

  /** Rule `i` has a pattern that normalizes to nothing. */
  predicate IsVoid(rules: seq<Rule>, i: nat) {
    i < |rules| && rules[i].pattern != [] && N.Norm(rules[i].pattern) == []
  }

  /** No pattern's non-empty normal form is contained in the text. */
  ghost predicate HasNone(rules: seq<Rule>, text: Bytes) {
    forall i: nat :: Contained(rules, i, text) ==> IsVoid(rules, i)
  }

  lemma SomeKeyOccursExactly(rules: seq<Rule>, text: Bytes)
    ensures SomeKeyOccurs(rules, text) <==> !HasNone(rules, text)
  {
    if SomeKeyOccurs(rules, text) {
      var i :| Live(rules, i) && Key(rules, i) != [] && Occurs(Key(rules, i), text);
      assert Contained(rules, i, text) && !IsVoid(rules, i);
    }
    if i: nat :| Contained(rules, i, text) && !IsVoid(rules, i) {
      assert Live(rules, i) && Key(rules, i) != [] && Occurs(Key(rules, i), text);
    }
  }

  /** Neither the text nor any of its ends begins a normal form. */
  ghost predicate BeginsNothing(rules: seq<Rule>, text: Bytes) {
    forall i: nat, p :: i < |rules| && rules[i].pattern != [] && p <= N.Norm(rules[i].pattern) && IsSuffix(p, text) ==> p == []
  }

  lemma {:induction false} TrieExactly(rules: seq<Rule>, n: nat, p: Bytes)
    requires n <= |rules|
    ensures p in TrieUpTo(rules, n) <==>
            p == [] || exists i: nat :: i < n && rules[i].pattern != [] && p <= N.Norm(rules[i].pattern)
  {
    if n > 0 {
      TrieExactly(rules, n - 1, p);
      PrefixesArePrefixes(N.Norm(rules[n - 1].pattern), p);
    }
  }

  lemma RootReportsExactly(rules: seq<Rule>)
    ensures RootReports(rules) <==> exists i: nat :: IsVoid(rules, i)
  {
    if RootReports(rules) {
      var i :| HasKey(rules, i, []);
      assert IsVoid(rules, i);
    }
    if i: nat :| IsVoid(rules, i) {
      assert HasKey(rules, i, []);
    }
  }

  lemma AtRootExactly(rules: seq<Rule>, text: Bytes, k: int)
    requires 0 < k <= |text|
    ensures AtRoot(rules, text, k) <==> BeginsNothing(rules, text[..k])
  {
    if AtRoot(rules, text, k) {
      forall i: nat, p | i < |rules| && rules[i].pattern != [] && p <= N.Norm(rules[i].pattern) && IsSuffix(p, text[..k])
        ensures p == []
      {
        TrieExactly(rules, |rules|, p);
      }
    }
    if BeginsNothing(rules, text[..k]) {
      forall q | q in Trie(rules) && IsSuffix(q, text[..k]) ensures q == [] {
        TrieExactly(rules, |rules|, q);
      }
    }
  }

  /** For every rule list and value: a report is made iff a non-empty normal form is contained in the normalized value,
    * or some pattern normalizes to nothing and some point of the value begins no normal form. */
  lemma FiresExactly(rules: seq<Rule>, input: Bytes)
    ensures Scan(rules, input).Some? <==>
            || !HasNone(rules, N.Norm(input))
            || ((exists i: nat :: IsVoid(rules, i))
                && exists k :: 0 < k <= |N.Norm(input)| && BeginsNothing(rules, N.Norm(input)[..k]))
  {
    var text := N.Norm(input);
    ReportsExactly(rules, text);
    RootReportsExactly(rules);
    SomeKeyOccursExactly(rules, text);
    if VisitsRoot(rules, text) {
      var k :| AtRoot(rules, text, k);
      AtRootExactly(rules, text, k);
    }
    if k :| 0 < k <= |text| && BeginsNothing(rules, text[..k]) {
      AtRootExactly(rules, text, k);
    }
  }

  /** Which rule is reported when no pattern normalizes to nothing: the one with the earliest end, then with the longest
    * normal form, then the last in the list; the report has its pattern and identifies it. */
  lemma ReportIsEarliestLongestLast(rules: seq<Rule>, input: Bytes) returns (k: nat, i: nat)
    requires (forall j: nat :: !IsVoid(rules, j)) && Scan(rules, input).Some?
    ensures 0 < k <= |N.Norm(input)|
    ensures HasNone(rules, N.Norm(input)[..k - 1])
    ensures EndsWith(rules, i, N.Norm(input)[..k])
    ensures forall j: nat :: EndsWith(rules, j, N.Norm(input)[..k]) ==>
              |N.Norm(rules[j].pattern)| <= |N.Norm(rules[i].pattern)|
    ensures forall j :: i < j < |rules| && rules[j].pattern != [] ==> N.Norm(rules[j].pattern) != N.Norm(rules[i].pattern)
    ensures Scan(rules, input).value.pattern == rules[i].pattern && Identifies(rules[i], i, Scan(rules, input).value.id)
  {
    hide Identifies, Entry;
    RootReportsExactly(rules);
    var text := N.Norm(input);
    k, i := FirstReport(rules, text);
    EntryIdentifies(rules, i);
    SomeKeyOccursExactly(rules, text[..k - 1]);
    forall j: nat | EndsWith(rules, j, text[..k]) ensures |N.Norm(rules[j].pattern)| <= |N.Norm(rules[i].pattern)| {
      assert Live(rules, j) && IsSuffix(Key(rules, j), text[..k]);
    }
    forall j | i < j < |rules| && rules[j].pattern != [] ensures N.Norm(rules[j].pattern) != N.Norm(rules[i].pattern) {
      assert !HasKey(rules, j, Key(rules, i));
    }
  }

  /** The reference oracle: some pattern's normal form is contained in the normalized input. */
  ghost predicate Contains(rules: seq<Rule>, input: Bytes) {
    exists i: nat :: Contained(rules, i, N.Norm(input))
  }

  /** The scan agrees with the oracle on every input exactly when no pattern normalizes to nothing. */
  lemma ScanMeetsOracleExactly(rules: seq<Rule>)
    ensures (forall input :: Scan(rules, input).Some? <==> Contains(rules, input)) <==> forall i: nat :: !IsVoid(rules, i)
  {
    if i: nat :| IsVoid(rules, i) {
      assert N.Norm([]) == [];
      assert OccursAt(N.Norm(rules[i].pattern), N.Norm([]), 0);
      assert Contained(rules, i, N.Norm([]));
      assert Contains(rules, []) && Scan(rules, []).None?;
    } else {
      forall input ensures Scan(rules, input).Some? <==> Contains(rules, input) {
        FiresExactly(rules, input);
      }
    }
  }
}
