/** The Aho-Corasick automaton on its pointer graph (security/waf/automaton.go:38-93).
  * Every node carries the path that reaches it as a ghost constant. */
module Automaton {
  import opened Text
  import opened Rules
  import N = Normalize

  class Node {
    ghost const path: Bytes
    var next: map<char, Node>
    var fail: Node?
    var output: Option<Rule>

    constructor (ghost path: Bytes)
      ensures this.path == path && next == map[] && fail == null && output == None
    {
      this.path := path;
      next, fail, output := map[], null, None;
    }
  }

  /** The nodes of a tree by path, together with the set of all of them. */
  datatype Graph = Graph(nodes: map<Bytes, Node>, repr: set<Node>)

  ghost predicate IsNode(g: Graph, n: Node) {
    n.path in g.nodes && g.nodes[n.path] == n
  }

  ghost predicate Indexed(g: Graph) {
    && PrefixClosed(g.nodes.Keys)
    && (forall p :: p in g.nodes ==> g.nodes[p] in g.repr && g.nodes[p].path == p)
  }

  /** The edges of node `p` by byte `b` are exactly the tree edges. */
  ghost predicate Edge(g: Graph, p: Bytes, b: char)
    requires Indexed(g) && p in g.nodes
    reads g.repr`next
  {
    && (b in g.nodes[p].next <==> p + [b] in g.nodes)
    && (b in g.nodes[p].next ==> g.nodes[p].next[b] == g.nodes[p + [b]])
  }

  ghost predicate Shape(g: Graph)
    reads g.repr`next
  {
    Indexed(g) && forall p, b :: p in g.nodes ==> Edge(g, p, b)
  }

  ghost predicate Unlinked(g: Graph)
    requires Indexed(g)
    reads g.repr
  {
    forall p :: p in g.nodes ==> g.nodes[p].fail == null
  }

  // ---- Phase one: the trie. ----

  method AddChild(parent: Node, b: char, ghost g0: Graph) returns (child: Node, ghost g: Graph)
    requires Shape(g0) && IsNode(g0, parent) && parent.path + [b] !in g0.nodes
    modifies parent`next
    ensures fresh(child) && child.output == None && child.fail == null && child.path == parent.path + [b]
    ensures g == Graph(g0.nodes[child.path := child], g0.repr + {child})
    ensures Shape(g)
  {
    child := new Node(parent.path + [b]);
    parent.next := parent.next[b := child];
    g := Graph(g0.nodes[child.path := child], g0.repr + {child});
    InitAppend(parent.path, b);
    assert Indexed(g);
    forall p, c | p in g.nodes ensures Edge(g, p, c) {
      InitAppend(p, c);
      if p != child.path {
        assert old(Edge(g0, p, c));
      }
    }
  }

  /** Walks from the root along `w`, creating the missing nodes. */
  method InsertPath(root: Node, w: Bytes, ghost g0: Graph) returns (current: Node, ghost g: Graph)
    requires Shape(g0) && Unlinked(g0) && root == g0.nodes[[]]
    modifies g0.repr`next
    ensures Shape(g) && Unlinked(g) && g.nodes.Keys == g0.nodes.Keys + Prefixes(w)
    ensures w in g.nodes && current == g.nodes[w]
    ensures g0.repr <= g.repr && fresh(g.repr - g0.repr)
    ensures forall p :: p in g0.nodes ==> p in g.nodes && g.nodes[p] == g0.nodes[p]
    ensures forall p :: p in g.nodes && p !in g0.nodes ==> g.nodes[p] !in g0.repr && g.nodes[p].output == None
  {
    current, g := root, g0;
    for i := 0 to |w|
      invariant Shape(g) && Unlinked(g) && g.nodes.Keys == g0.nodes.Keys + Prefixes(w[..i])
      invariant w[..i] in g.nodes && current == g.nodes[w[..i]]
      invariant g0.repr <= g.repr && fresh(g.repr - g0.repr)
      invariant forall p :: p in g0.nodes ==> p in g.nodes && g.nodes[p] == g0.nodes[p]
      invariant forall p :: p in g.nodes && p !in g0.nodes ==> g.nodes[p] !in g0.repr && g.nodes[p].output == None
    {
      var b := w[i];
      assert w[..i + 1] == w[..i] + [b];
      InitAppend(w[..i], b);
      assert Edge(g, w[..i], b);
      if b !in current.next {
        current, g := AddChild(current, b, g);
      } else {
        current := current.next[b];
      }
    }
    assert w[..|w|] == w;
  }

  lemma MoreDigits(rest: nat, text: string)
    requires rest > 0
    ensures Decimal(rest / 10) + ([('0' as int + rest % 10) as char] + text) == Decimal(rest) + text
  {
  }

  method DigitsOf(value: nat) returns (text: string)
    ensures text == Decimal(value)
  {
    text := "";
    var rest := value;
    while rest > 0
      invariant Decimal(rest) + text == Decimal(value)
    {
      MoreDigits(rest, text);
      text := [('0' as int + rest % 10) as char] + text;
      rest := rest / 10;
    }
  }

  lemma MoreZeros(n: nat, digits: string)
    ensures ['0'] + (seq(n, _ => '0') + digits) == seq(n + 1, _ => '0') + digits
  {
  }

  /** Decimal digits of a number, with zeros in front up to the given width. */
  method PaddedText(value: nat, width: nat) returns (text: string)
    ensures text == ZeroPad(value, width)
  {
    text := DigitsOf(value);
    if text == "" {
      text := "0";
    }
    ghost var digits := text;
    var n := 0;
    assert text == seq(0, _ => '0') + digits;
    while |text| < width
      invariant text == seq(n, _ => '0') + digits && |text| == n + |digits| && (n > 0 ==> |text| <= width)
      decreases width - |text|
    {
      MoreZeros(n, digits);
      text := ['0'] + text;
      n := n + 1;
    }
  }

  method RootOnly() returns (root: Node, ghost g: Graph)
    ensures Shape(g) && Unlinked(g) && g.nodes == map[[] := root] && fresh(g.repr) && root.output == None
  {
    root := new Node([]);
    g := Graph(map[[] := root], {root});
    forall b ensures Edge(g, [], b) {
      assert [] + [b] != [];
    }
  }

  /** The trie of all live rules; among rules with one normal form the last wins. */
  method BuildTrie(rules: seq<Rule>) returns (root: Node, ghost g: Graph)
    ensures Shape(g) && Unlinked(g) && g.nodes.Keys == Trie(rules) && root == g.nodes[[]] && fresh(g.repr)
    ensures forall p :: p in g.nodes ==> g.nodes[p].output == Own(rules, p)
  {
    hide Unlinked, N.Norm, Prefixes, Edge;
    root, g := RootOnly();
    for i := 0 to |rules|
      invariant Shape(g) && Unlinked(g) && g.nodes.Keys == TrieUpTo(rules, i) && root == g.nodes[[]] && fresh(g.repr)
      invariant forall p :: p in g.nodes ==> g.nodes[p].output == OwnUpTo(rules, i, p)
    {
      var rule := rules[i];
      if rule.pattern == [] {
        continue;
      }
      if rule.id == "" {
        var number := PaddedText(i + 1, 4);
        rule := rule.(id := "MTWS-WAF-" + number);
      }
      var normalized := N.Normalize(rule.pattern);
      g := AddRule(root, normalized, rule, rules, i, g);
    }
  }

  method AddRule(root: Node, normalized: Bytes, rule: Rule, ghost rules: seq<Rule>, ghost i: nat, ghost g0: Graph)
    returns (ghost g: Graph)
    requires Shape(g0) && Unlinked(g0) && root == g0.nodes[[]]
    requires i < |rules| && HasKey(rules, i, normalized) && rule == Entry(rules, i)
    requires g0.nodes.Keys == TrieUpTo(rules, i)
    requires forall p :: p in g0.nodes ==> g0.nodes[p].output == OwnUpTo(rules, i, p)
    modifies g0.repr
    ensures fresh(g.repr - g0.repr)
    ensures Shape(g) && Unlinked(g) && g.nodes.Keys == TrieUpTo(rules, i + 1) && root == g.nodes[[]]
    ensures forall p :: p in g.nodes ==> g.nodes[p].output == OwnUpTo(rules, i + 1, p)
  {
    var current;
    current, g := InsertPath(root, normalized, g0);
    forall p | p in g.nodes && p !in g0.nodes ensures OwnUpTo(rules, i, p) == None {
      if OwnUpTo(rules, i, p).Some? {
        OwnersAreInTrie(rules, i, p);
      }
    }
    current.output := Some(rule);
  }

  // ---- Phase two: fail links and inherited outputs, breadth first. ----

  /** Node `p` has the fail link and the output that the table prescribes. */
  ghost predicate Linked(tab: Table, g: Graph, p: Bytes)
    requires Sized(tab) && Indexed(g) && g.nodes.Keys == tab.trie && p in tab.trie
    reads g.repr
  {
    && g.nodes[p].fail == (if p == [] then null else g.nodes[tab.fail[p]])
    && g.nodes[p].output == tab.output[p]
  }

  /** Node `p` still reports its own rule only. */
  ghost predicate OwnOnly(tab: Table, g: Graph, p: Bytes)
    requires Sized(tab) && Indexed(g) && g.nodes.Keys == tab.trie && p in tab.trie
    reads g.repr
  {
    g.nodes[p].output == tab.own[p]
  }

  /** What holds of the graph when exactly the paths in `settled` have been linked. */
  ghost predicate LinkedSoFar(tab: Table, g: Graph, settled: set<Bytes>)
    reads g.repr
  {
    && Sized(tab) && Shape(g) && g.nodes.Keys == tab.trie
    && (forall p {:trigger Linked(tab, g, p)} :: p in tab.trie && p in settled ==> Linked(tab, g, p))
    && (forall p {:trigger OwnOnly(tab, g, p)} :: p in tab.trie && p !in settled ==> OwnOnly(tab, g, p))
  }

  ghost predicate InQueue(queue: seq<Node>, p: Bytes) {
    exists i :: 0 <= i < |queue| && queue[i].path == p
  }

  /** The queue holds nodes, without repetition, by increasing depth, all of depth d or d + 1. */
  ghost predicate Layered(g: Graph, queue: seq<Node>, d: nat) {
    && (forall i :: 0 <= i < |queue| ==> IsNode(g, queue[i]) && d <= |queue[i].path| <= d + 1)
    && (forall i, j :: 0 <= i < j < |queue| ==> queue[i].path != queue[j].path && |queue[i].path| <= |queue[j].path|)
  }

  /** The queue holds exactly the linked paths that are neither expanded nor being expanded. */
  ghost predicate Frontier(g: Graph, queue: seq<Node>, settled: set<Bytes>, expanded: set<Bytes>, cur: Bytes) {
    && expanded <= settled && cur in settled
    && (forall p :: p in g.nodes && p in settled && p !in expanded && p != cur ==> InQueue(queue, p))
    && (forall i :: 0 <= i < |queue| ==> queue[i].path in settled && queue[i].path !in expanded && queue[i].path != cur)
  }

  /** A path is linked once its parent has been expanded, or is `cur` and has passed the byte in question. */
  ghost predicate SettledBy(g: Graph, settled: set<Bytes>, expanded: set<Bytes>, cur: Bytes, todo: set<char>) {
    forall p :: p in g.nodes ==>
      (p in settled <==> p == [] || Init(p) in expanded || (Init(p) == cur && Last(p) !in todo))
  }

  ghost predicate ShorterSettled(g: Graph, settled: set<Bytes>, d: nat) {
    forall p :: p in g.nodes && |p| <= d ==> p in settled
  }

  lemma Enqueue(g: Graph, queue: seq<Node>, child: Node, d: nat,
                settled: set<Bytes>, expanded: set<Bytes>, cur: Bytes)
    requires Frontier(g, queue, settled, expanded, cur) && Layered(g, queue, d)
    requires IsNode(g, child) && child.path !in settled && child.path !in expanded && child.path != cur
    requires |child.path| == d + 1
    ensures Frontier(g, queue + [child], settled + {child.path}, expanded, cur)
    ensures Layered(g, queue + [child], d)
  {
    var longer := queue + [child];
    forall p | p in g.nodes && p in settled + {child.path} && p !in expanded && p != cur ensures InQueue(longer, p) {
      if p == child.path {
        assert longer[|queue|].path == p;
      } else {
        var i :| 0 <= i < |queue| && queue[i].path == p;
        assert longer[i].path == p;
      }
    }
  }

  lemma Dequeue(g: Graph, queue: seq<Node>, settled: set<Bytes>, expanded: set<Bytes>)
    requires queue != [] && [] in expanded && Frontier(g, queue, settled, expanded, [])
    requires Layered(g, queue, |queue[0].path|)
    ensures Layered(g, queue[1..], |queue[0].path|)
    ensures Frontier(g, queue[1..], settled, expanded, queue[0].path)
  {
    var rest := queue[1..];
    forall p | p in g.nodes && p in settled && p !in expanded && p != queue[0].path ensures InQueue(rest, p) {
      assert InQueue(queue, p);
      var i :| 0 <= i < |queue| && queue[i].path == p;
      assert rest[i - 1].path == p;
    }
  }

  /** When the head of the queue moves one level down, the whole level above has been expanded. */
  lemma NextLayer(g: Graph, queue: seq<Node>, settled: set<Bytes>, expanded: set<Bytes>, cur: Bytes)
    requires PrefixClosed(g.nodes.Keys) && [] in expanded && cur != []
    requires Layered(g, queue, |cur|) && Frontier(g, queue, settled, expanded, cur)
    requires forall p :: p in g.nodes && |p| < |cur| ==> p in expanded
    requires SettledBy(g, settled, expanded, cur, {})
    ensures SettledBy(g, settled, expanded + {cur}, [], {})
    ensures Frontier(g, queue, settled, expanded + {cur}, [])
    ensures queue != [] ==> queue[0].path != [] && Layered(g, queue, |queue[0].path|)
    ensures queue != [] ==> forall p :: p in g.nodes && |p| < |queue[0].path| ==> p in expanded + {cur}
  {
  }

  lemma {:induction false} AllReached(g: Graph, settled: set<Bytes>, expanded: set<Bytes>, p: Bytes)
    requires PrefixClosed(g.nodes.Keys) && [] in expanded && Frontier(g, [], settled, expanded, [])
    requires SettledBy(g, settled, expanded, [], {})
    requires p in g.nodes
    ensures p in settled && p in expanded
  {
    if p != [] {
      AllReached(g, settled, expanded, Init(p));
    }
  }

  /** Completes one node; everything said about the others stays as it was. */
  method SetLinks(child: Node, target: Node, output: Option<Rule>, ghost tab: Table, ghost g: Graph, ghost settled: set<Bytes>)
    requires LinkedSoFar(tab, g, settled) && IsNode(g, child) && child.path != []
    requires target == g.nodes[tab.fail[child.path]] && output == tab.output[child.path]
    modifies child`fail, child`output
    ensures LinkedSoFar(tab, g, settled + {child.path})
  {
    child.fail := target;
    child.output := output;
    forall p | p in tab.trie && p != child.path && p in settled ensures Linked(tab, g, p) {
      assert old(Linked(tab, g, p));
    }
    forall p | p in tab.trie && p != child.path && p !in settled ensures OwnOnly(tab, g, p) {
      assert old(OwnOnly(tab, g, p));
    }
  }

  /** Walks the fail links of `current` to the first node with an edge by `b`. */
  method FindFail(current: Node, b: char, ghost tab: Table, ghost g: Graph, ghost settled: set<Bytes>)
    returns (fail: Node?)
    requires LinkedSoFar(tab, g, settled) && IsNode(g, current) && current.path != []
    requires ShorterSettled(g, settled, |current.path|)
    requires FailRule(tab, current.path, b) && current.path + [b] in tab.trie
    ensures fail == null ==> tab.fail[current.path + [b]] == []
    ensures fail != null ==> IsNode(g, fail) && |fail.path| < |current.path| && b in fail.next
                             && tab.fail[current.path + [b]] == fail.path + [b]
  {
    assert Linked(tab, g, current.path);
    fail := current.fail;
    while fail != null && b !in fail.next
      invariant fail != null ==> IsNode(g, fail) && |fail.path| < |current.path|
                                 && Walk(tab, fail.path, b) == tab.fail[current.path + [b]]
      invariant fail == null ==> tab.fail[current.path + [b]] == []
      decreases if fail == null then 0 else |fail.path| + 1
    {
      assert Edge(g, fail.path, b) && Linked(tab, g, fail.path);
      fail := fail.fail;
    }
    if fail != null {
      assert Edge(g, fail.path, b);
    }
  }

  /** Links the child of `current` by `b`, the links of all paths no longer than its own being final. */
  method LinkChild(root: Node, current: Node, b: char, ghost tab: Table, ghost g: Graph, ghost settled: set<Bytes>)
    requires LinkedSoFar(tab, g, settled) && root == g.nodes[[]]
    requires IsNode(g, current) && current.path != [] && b in current.next
    requires ShorterSettled(g, settled, |current.path|)
    requires current.path + [b] !in settled
    requires FailRule(tab, current.path, b) && OutputRule(tab, current.path + [b])
    modifies g.repr`fail, g.repr`output
    ensures LinkedSoFar(tab, g, settled + {current.path + [b]})
  {
    assert Edge(g, current.path, b);
    var child := current.next[b];
    assert OwnOnly(tab, g, child.path);
    var fail := FindFail(current, b, tab, g, settled);
    if fail == null {
      SetLinks(child, root, child.output, tab, g, settled);
    } else {
      assert Edge(g, fail.path, b);
      var target := fail.next[b];
      assert Linked(tab, g, target.path);
      SetLinks(child, target, if child.output == None then target.output else child.output, tab, g, settled);
    }
  }

  lemma RulesHold(tab: Table, p: Bytes, b: char, q: Bytes)
    requires Coherent(tab)
    ensures FailRule(tab, p, b) && OutputRule(tab, q)
  {
  }

  /** Links and enqueues the children of `current`, in whatever order the map yields them. */
  method Expand(root: Node, current: Node, queue0: seq<Node>,
                ghost tab: Table, ghost g: Graph, ghost settled0: set<Bytes>, ghost expanded: set<Bytes>)
    returns (queue: seq<Node>, ghost settled: set<Bytes>)
    requires Coherent(tab) && LinkedSoFar(tab, g, settled0) && root == g.nodes[[]]
    requires IsNode(g, current) && current.path != [] && current.path !in expanded && [] in expanded
    requires Frontier(g, queue0, settled0, expanded, current.path) && Layered(g, queue0, |current.path|)
    requires SettledBy(g, settled0, expanded, [], {})
    requires forall p :: p in g.nodes && |p| < |current.path| ==> p in expanded
    modifies g.repr`fail, g.repr`output
    ensures LinkedSoFar(tab, g, settled)
    ensures Frontier(g, queue, settled, expanded, current.path) && Layered(g, queue, |current.path|)
    ensures SettledBy(g, settled, expanded, current.path, {})
  {
    hide Coherent, FailRule, OutputRule, Linked, OwnOnly;
    ghost var cur := current.path;
    queue, settled := queue0, settled0;
    var todo := current.next.Keys;
    ChildrenAreEdges(g, cur);
    assert ShorterSettled(g, settled, |cur|);
    while todo != {}
      invariant LinkedSoFar(tab, g, settled) && todo <= current.next.Keys
      invariant Frontier(g, queue, settled, expanded, cur) && Layered(g, queue, |cur|)
      invariant SettledBy(g, settled, expanded, cur, todo) && ShorterSettled(g, settled, |cur|)
      decreases |todo|
    {
      var b :| b in todo;
      ghost var path := cur + [b];
      InitAppend(cur, b);
      assert Edge(g, cur, b);
      var child := current.next[b];
      Enqueue(g, queue, child, |cur|, settled, expanded, cur);
      queue := queue + [child];
      RulesHold(tab, cur, b, path);
      LinkChild(root, current, b, tab, g, settled);
      SettleChild(g, settled, expanded, cur, todo, b);
      settled := settled + {path};
      todo := todo - {b};
    }
  }

  lemma SettleChild(g: Graph, settled: set<Bytes>, expanded: set<Bytes>, cur: Bytes, todo: set<char>, b: char)
    requires SettledBy(g, settled, expanded, cur, todo) && cur !in expanded && b in todo
    ensures SettledBy(g, settled + {cur + [b]}, expanded, cur, todo - {b})
  {
    InitAppend(cur, b);
    forall p | p in g.nodes && p != [] && Init(p) == cur && Last(p) == b ensures p == cur + [b] {
    }
  }

  lemma ChildrenAreEdges(g: Graph, p: Bytes)
    requires Shape(g) && p in g.nodes
    ensures forall q :: q in g.nodes && q != [] && Init(q) == p ==> Last(q) in g.nodes[p].next
  {
    forall q | q in g.nodes && q != [] && Init(q) == p ensures Last(q) in g.nodes[p].next {
      assert Edge(g, p, Last(q)) && q == p + [Last(q)];
    }
  }

  /** The root's children fail to the root and inherit nothing. */
  method LinkTopLevel(root: Node, ghost tab: Table, ghost g: Graph)
    returns (queue: seq<Node>, ghost settled: set<Bytes>)
    requires Coherent(tab) && LinkedSoFar(tab, g, {[]}) && root == g.nodes[[]]
    modifies g.repr`fail, g.repr`output
    ensures LinkedSoFar(tab, g, settled)
    ensures Frontier(g, queue, settled, {[]}, []) && Layered(g, queue, 0)
    ensures SettledBy(g, settled, {[]}, [], {})
  {
    queue, settled := [], {[]};
    var todo := root.next.Keys;
    ChildrenAreEdges(g, []);
    while todo != {}
      invariant LinkedSoFar(tab, g, settled) && todo <= root.next.Keys
      invariant Frontier(g, queue, settled, {[]}, []) && Layered(g, queue, 0)
      invariant SettledBy(g, settled, {}, [], todo)
      decreases |todo|
    {
      var b :| b in todo;
      ghost var path := [] + [b];
      InitAppend([], b);
      assert Edge(g, [], b);
      var child := root.next[b];
      assert FailRule(tab, [], b) && OutputRule(tab, path) && OwnOnly(tab, g, path);
      SetLinks(child, root, child.output, tab, g, settled);
      Enqueue(g, queue, child, 0, settled, {[]}, []);
      queue := queue + [child];
      SettleChild(g, settled, {}, [], todo, b);
      settled := settled + {path};
      todo := todo - {b};
    }
  }

  /** `order` lists every path of `paths` exactly once, shorter paths first. */
  ghost predicate BreadthFirst(order: seq<Bytes>, paths: set<Bytes>) {
    && (forall p :: p in paths <==> p in order)
    && (forall i, j :: 0 <= i < j < |order| ==> order[i] != order[j] && |order[i]| <= |order[j]|)
  }

  lemma OrderSnoc(order: seq<Bytes>, paths: set<Bytes>, p: Bytes)
    requires BreadthFirst(order, paths) && p !in paths && forall q :: q in paths ==> |q| <= |p|
    ensures BreadthFirst(order + [p], paths + {p})
  {
    forall i | 0 <= i < |order| ensures order[i] != p && |order[i]| <= |p| {
      assert order[i] in paths;
    }
  }

  /** Between two expansions: shallower paths than the head of the queue have been expanded, in order. */
  ghost predicate Searching(g: Graph, queue: seq<Node>, settled: set<Bytes>, expanded: set<Bytes>, order: seq<Bytes>) {
    && PrefixClosed(g.nodes.Keys) && [] in expanded && expanded <= g.nodes.Keys
    && SettledBy(g, settled, expanded, [], {}) && Frontier(g, queue, settled, expanded, [])
    && BreadthFirst(order, expanded)
    && (queue != [] ==> queue[0].path != [] && Layered(g, queue, |queue[0].path|))
    && (queue != [] ==> forall p :: p in g.nodes && |p| < |queue[0].path| ==> p in expanded)
    && (queue != [] ==> forall p :: p in expanded ==> |p| <= |queue[0].path|)
  }

  lemma StartSearch(g: Graph, queue: seq<Node>, settled: set<Bytes>)
    requires PrefixClosed(g.nodes.Keys) && [] in g.nodes && Layered(g, queue, 0)
    requires SettledBy(g, settled, {[]}, [], {}) && Frontier(g, queue, settled, {[]}, [])
    ensures Searching(g, queue, settled, {[]}, [[]])
  {
  }

  lemma HeadOfQueue(g: Graph, queue: seq<Node>, settled: set<Bytes>, expanded: set<Bytes>, order: seq<Bytes>)
    requires Searching(g, queue, settled, expanded, order) && queue != []
    ensures var cur := queue[0].path;
            && IsNode(g, queue[0]) && cur != [] && cur !in expanded && [] in expanded
            && Frontier(g, queue[1..], settled, expanded, cur) && Layered(g, queue[1..], |cur|)
            && SettledBy(g, settled, expanded, [], {})
            && (forall p :: p in g.nodes && |p| < |cur| ==> p in expanded)
  {
    Dequeue(g, queue, settled, expanded);
  }

  lemma AfterExpand(g: Graph, queue0: seq<Node>, settled0: set<Bytes>, expanded: set<Bytes>, order: seq<Bytes>,
                    queue: seq<Node>, settled: set<Bytes>)
    requires Searching(g, queue0, settled0, expanded, order) && queue0 != []
    requires var cur := queue0[0].path;
             && Frontier(g, queue, settled, expanded, cur) && Layered(g, queue, |cur|)
             && SettledBy(g, settled, expanded, cur, {})
    ensures var cur := queue0[0].path;
            cur in g.nodes && cur !in expanded && Searching(g, queue, settled, expanded + {cur}, order + [cur])
  {
    var cur := queue0[0].path;
    NextLayer(g, queue, settled, expanded, cur);
    OrderSnoc(order, expanded, cur);
    hide BreadthFirst, SettledBy, Frontier;
  }

  lemma SearchIsDone(g: Graph, settled: set<Bytes>, expanded: set<Bytes>, order: seq<Bytes>)
    requires Searching(g, [], settled, expanded, order)
    ensures BreadthFirst(order, g.nodes.Keys) && forall p :: p in g.nodes ==> p in settled
  {
    forall p | p in g.nodes ensures p in settled && p in expanded {
      AllReached(g, settled, expanded, p);
    }
    assert expanded == g.nodes.Keys;
  }

  /** Breadth-first search from the root. The root's children are linked first; then `order` is the order in which
    * the paths come to be expanded. */
  method LinkFailures(root: Node, ghost tab: Table, ghost g: Graph) returns (ghost order: seq<Bytes>)
    requires Coherent(tab) && Shape(g) && Unlinked(g) && g.nodes.Keys == tab.trie && root == g.nodes[[]]
    requires forall p :: p in g.nodes ==> g.nodes[p].output == tab.own[p]
    modifies g.repr`fail, g.repr`output
    ensures Shape(g) && forall p :: p in g.nodes ==> Linked(tab, g, p)
    ensures BreadthFirst(order, tab.trie)
  {
    hide SettledBy, Frontier, Layered, BreadthFirst, Searching;
    assert OutputRule(tab, []);
    var queue;
    ghost var settled;
    queue, settled := LinkTopLevel(root, tab, g);
    ghost var expanded: set<Bytes> := {[]};
    order := [[]];
    StartSearch(g, queue, settled);
    while queue != []
      invariant LinkedSoFar(tab, g, settled) && Searching(g, queue, settled, expanded, order)
      decreases g.nodes.Keys - expanded
    {
      var current := queue[0];
      ghost var queue0, settled0 := queue, settled;
      HeadOfQueue(g, queue, settled, expanded, order);
      queue, settled := Expand(root, current, queue[1..], tab, g, settled, expanded);
      AfterExpand(g, queue0, settled0, expanded, order, queue, settled);
      expanded := expanded + {current.path};
      order := order + [current.path];
    }
    SearchIsDone(g, settled, expanded, order);
  }

  // ---- The finished automaton. ----

  /** Node `p` and its edge by `b`, in terms of the rule list. */
  ghost predicate Placed(rules: seq<Rule>, g: Graph, p: Bytes, b: char)
    requires Indexed(g) && g.nodes.Keys == Trie(rules) && p in g.nodes
    reads g.repr
  {
    var n := g.nodes[p];
    && n.fail == (if p == [] then null else g.nodes[FailPath(Trie(rules), p)])
    && n.output == Output(rules, p)
    && (b in n.next <==> p + [b] in Trie(rules))
    && (b in n.next ==> n.next[b] == g.nodes[p + [b]])
  }

  ghost predicate Built(root: Node, rules: seq<Rule>, g: Graph)
    reads g.repr
  {
    && Indexed(g) && g.nodes.Keys == Trie(rules) && root == g.nodes[[]]
    && (forall p, b {:trigger Placed(rules, g, p, b)} :: p in g.nodes ==> Placed(rules, g, p, b))
  }

  class Automaton {
    const root: Node
    ghost const rules: seq<Rule>
    ghost const graph: Graph

    ghost predicate Valid()
      reads graph.repr
    {
      Built(root, rules, graph)
    }

    constructor (root: Node, ghost rules: seq<Rule>, ghost graph: Graph)
      requires Built(root, rules, graph)
      ensures Valid() && this.rules == rules && this.graph == graph
    {
      this.root, this.rules, this.graph := root, rules, graph;
    }
  }

  /** Every fail link is the longest proper suffix in the trie, every output the rule owning the longest suffix
    * that is a normal form, in whatever order the maps were iterated. */
  method NewRules(rules: seq<Rule>) returns (a: Automaton)
    ensures fresh(a) && fresh(a.graph.repr) && a.Valid() && a.rules == rules
  {
    var root;
    ghost var g;
    root, g := BuildTrie(rules);
    TableIsCoherent(rules);
    ghost var _ := LinkFailures(root, TableOf(rules), g);
    forall p, b | p in g.nodes ensures Placed(rules, g, p, b) {
      assert Linked(TableOf(rules), g, p) && Edge(g, p, b);
    }
    a := new Automaton(root, rules, g);
  }
}
