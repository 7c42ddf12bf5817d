/** Lexical containment of static files (cmd/server/main.go:484, 579-605). filepath.Clean, Join and Rel are
  * modelled on lists of path components for slash-separated paths; symbolic links are not followed. */
module StaticPath {
  import opened Text
  import opened HttpText

  /** The pieces between slashes, empty ones included. */
  function Split(s: Bytes): (r: seq<Bytes>)
    ensures r != []
    decreases |s|
  {
    var k := IndexOf(s, '/');
    if k == |s| then [s] else [s[..k]] + Split(s[k + 1..])
  }

  predicate IsAbs(s: Bytes) {
    s != [] && s[0] == '/'
  }

  /** One component of a path being cleaned: dots vanish, a double dot removes its parent where there is one. */
  function Push(rooted: bool, stack: seq<Bytes>, part: Bytes): seq<Bytes> {
    if part == "" || part == "." then stack
    else if part != ".." then stack + [part]
    else if stack != [] && Last(stack) != ".." then Init(stack)
    else if rooted then stack
    else stack + [".."]
  }

  function PushAll(rooted: bool, stack: seq<Bytes>, parts: seq<Bytes>): seq<Bytes> {
    if parts == [] then stack else Push(rooted, PushAll(rooted, stack, Init(parts)), Last(parts))
  }

  /** The components of filepath.Clean(s). */
  function CleanParts(s: Bytes): seq<Bytes> {
    PushAll(IsAbs(s), [], Split(s))
  }

  function JoinSlash(parts: seq<Bytes>): Bytes {
    if parts == [] then []
    else if |parts| == 1 then parts[0]
    else parts[0] + "/" + JoinSlash(parts[1..])
  }

  /** filepath.Clean. */
  function Clean(s: Bytes): Bytes {
    var text := JoinSlash(CleanParts(s));
    if IsAbs(s) then "/" + text else if text == [] then "." else text
  }

  predicate HasPrefix(s: Bytes, p: Bytes) {
    |p| <= |s| && s[..|p|] == p
  }

  predicate IsSafeStaticPath(path: Bytes) {
    if path == [] then true
    else if '\\' in path || ':' in path then false
    else if exists k :: 0 <= k < |path| && (path[k] as int <= 31 || path[k] as int == 127) then false
    else
      var cleaned := Clean(path);
      cleaned == "." || (!HasPrefix(cleaned, "../") && cleaned != ".." && !HasPrefix(cleaned, "/"))
  }

  /** filepath.Rel between two cleaned absolute paths, by components: up from the root, then down to the target. */
  function RelParts(root: seq<Bytes>, target: seq<Bytes>): seq<Bytes> {
    if root != [] && target != [] && root[0] == target[0] then RelParts(root[1..], target[1..])
    else seq(|root|, _ => "..") + target
  }

  predicate IsWithinRoot(root: Bytes, target: Bytes)
    requires IsAbs(root) && IsAbs(target)
  {
    var parts := RelParts(CleanParts(root), CleanParts(target));
    var relative := if parts == [] then "." else JoinSlash(parts);
    relative == "." || (!HasPrefix(relative, "../") && relative != ".." && !IsAbs(relative))
  }

  /** filepath.Join of an absolute root and a relative path. */
  function Join(root: Bytes, path: Bytes): Bytes {
    Clean(root + "/" + path)
  }

  // ---- Components. ----

  predicate IsPart(p: Bytes) {
    p != [] && p != "." && '/' !in p
  }

  predicate AreParts(ps: seq<Bytes>) {
    forall i :: 0 <= i < |ps| ==> IsPart(ps[i])
  }

  lemma {:induction false} SplitHasNoSlash(s: Bytes)
    ensures forall i :: 0 <= i < |Split(s)| ==> '/' !in Split(s)[i]
    decreases |s|
  {
    var k := IndexOf(s, '/');
    if k < |s| {
      SplitHasNoSlash(s[k + 1..]);
    }
  }

  lemma {:induction false} PushAllAreParts(rooted: bool, stack: seq<Bytes>, parts: seq<Bytes>)
    requires AreParts(stack) && forall i :: 0 <= i < |parts| ==> '/' !in parts[i]
    ensures AreParts(PushAll(rooted, stack, parts))
  {
    if parts != [] {
      PushAllAreParts(rooted, stack, Init(parts));
    }
  }

  lemma CleanAreParts(s: Bytes)
    ensures AreParts(CleanParts(s))
  {
    SplitHasNoSlash(s);
    PushAllAreParts(IsAbs(s), [], Split(s));
  }

  lemma {:induction false} PushAllAppend(rooted: bool, stack: seq<Bytes>, a: seq<Bytes>, b: seq<Bytes>)
    ensures PushAll(rooted, stack, a + b) == PushAll(rooted, PushAll(rooted, stack, a), b)
    decreases |b|
  {
    if b == [] {
      assert a + b == a;
    } else {
      PushAllAppend(rooted, stack, a, Init(b));
      assert Init(a + b) == a + Init(b) && Last(a + b) == Last(b);
    }
  }

  lemma SplitAt(s: Bytes, k: nat)
    requires k < |s| && s[k] == '/' && forall j :: 0 <= j < k ==> s[j] != '/'
    ensures Split(s) == [s[..k]] + Split(s[k + 1..])
  {
    IndexOfFirst(s, '/', k);
  }

  lemma SplitWhole(s: Bytes)
    requires forall j :: 0 <= j < |s| ==> s[j] != '/'
    ensures Split(s) == [s]
  {
  }

  lemma {:induction false} SplitAppend(a: Bytes, b: Bytes)
    ensures Split(a + "/" + b) == Split(a) + Split(b)
    decreases |a|
  {
    var s, k := a + "/" + b, IndexOf(a, '/');
    hide Split;
    assert s[k] == '/' && forall j :: 0 <= j < k ==> s[j] == a[j];
    SplitAt(s, k);
    if k == |a| {
      SplitWhole(a);
      assert s[..k] == a && s[k + 1..] == b;
    } else {
      var a' := a[k + 1..];
      SplitAt(a, k);
      assert s[..k] == a[..k] && s[k + 1..] == a' + "/" + b;
      SplitAppend(a', b);
      Assoc([a[..k]], Split(a'), Split(b));
    }
  }

  /** The text of a component list shows its first component. */
  lemma FirstComponentShows(ps: seq<Bytes>)
    requires ps != [] && AreParts(ps)
    ensures var t := JoinSlash(ps);
            && t != [] && t != "." && !IsAbs(t)
            && ((HasPrefix(t, "../") || t == "..") <==> ps[0] == "..")
  {
    var p, t := ps[0], JoinSlash(ps);
    assert IsPart(p);
    var after := t[|p|..];
    assert t == p + after && (after == [] || after[0] == '/');
    PrefixOfPart(p, after);
  }

  lemma ParentPrefix(t: Bytes)
    ensures HasPrefix(t, "../") <==> |t| >= 3 && t[0] == '.' && t[1] == '.' && t[2] == '/'
  {
    if |t| >= 3 {
      assert t[..3] == [t[0], t[1], t[2]];
    }
  }

  lemma PrefixOfPart(p: Bytes, after: Bytes)
    requires IsPart(p) && (after == [] || after[0] == '/')
    ensures p + after != "." && !IsAbs(p + after)
    ensures (HasPrefix(p + after, "../") || p + after == "..") <==> p == ".."
  {
    var t := p + after;
    ParentPrefix(t);
    assert p[0] in p && t[0] == p[0];
    assert |p| > 1 ==> p[1] in p && t[1] == p[1];
    assert |p| > 2 ==> p[2] in p && t[2] == p[2];
    assert |p| == 1 && after != [] ==> t[1] == '/';
    assert |p| == 2 && after != [] ==> t[2] == '/';
  }

  // ---- Containment. ----

  /** A component stack that has lost a parent keeps the double dot at its bottom. */
  lemma {:induction false} LostParentStays(parts: seq<Bytes>, n: nat)
    requires n <= |parts|
    requires PushAll(false, [], parts[..n]) != [] && PushAll(false, [], parts[..n])[0] == ".."
    ensures PushAll(false, [], parts) != [] && PushAll(false, [], parts)[0] == ".."
    decreases |parts|
  {
    if n < |parts| {
      assert Init(parts)[..n] == parts[..n];
      LostParentStays(Init(parts), n);
    } else {
      assert parts[..n] == parts;
    }
  }

  /** A relative path that never loses a parent is pushed onto any root as it is. */
  lemma {:induction false} PushedAbove(root: seq<Bytes>, parts: seq<Bytes>)
    requires PushAll(false, [], parts) == [] || PushAll(false, [], parts)[0] != ".."
    ensures PushAll(true, root, parts) == root + PushAll(false, [], parts)
    ensures forall i :: 0 <= i < |PushAll(false, [], parts)| ==> PushAll(false, [], parts)[i] != ".."
  {
    if parts == [] {
      assert root + [] == root;
    } else {
      var g := Init(parts);
      if PushAll(false, [], g) != [] && PushAll(false, [], g)[0] == ".." {
        assert parts[..|g|] == g;
        LostParentStays(parts, |g|);
        assert false;
      }
      PushedAbove(root, g);
      PushOnRoot(root, PushAll(false, [], g), Last(parts));
    }
  }

  lemma PushOnRoot(root: seq<Bytes>, st: seq<Bytes>, part: Bytes)
    requires forall i :: 0 <= i < |st| ==> st[i] != ".."
    requires Push(false, st, part) == [] || Push(false, st, part)[0] != ".."
    ensures Push(true, root + st, part) == root + Push(false, st, part)
    ensures forall i :: 0 <= i < |Push(false, st, part)| ==> Push(false, st, part)[i] != ".."
  {
    if part == ".." {
      assert st != [];
      assert Last(root + st) == Last(st) && Init(root + st) == root + Init(st);
    }
  }

  /** What the check accepts, in components: no forbidden byte, not absolute, and no parent lost. */
  lemma SafeExactly(path: Bytes)
    requires path != []
    ensures IsSafeStaticPath(path) <==>
            && '\\' !in path && ':' !in path
            && (forall k :: 0 <= k < |path| ==> path[k] as int > 31 && path[k] as int != 127)
            && !IsAbs(path) && (CleanParts(path) == [] || CleanParts(path)[0] != "..")
  {
    CleanAreParts(path);
    var cleaned := Clean(path);
    if IsAbs(path) {
      assert cleaned[..1] == "/" && cleaned[0] == '/';
    } else if CleanParts(path) != [] {
      FirstComponentShows(CleanParts(path));
      assert cleaned[..1][0] == cleaned[0];
    }
  }

  lemma {:induction false} RelOfPrefix(root: seq<Bytes>, tail: seq<Bytes>)
    ensures RelParts(root, root + tail) == tail
  {
    if root == [] {
      assert [] + tail == tail && seq(0, _ => "..") + tail == tail;
    } else {
      assert (root + tail)[1..] == root[1..] + tail;
      RelOfPrefix(root[1..], tail);
    }
  }

  lemma PrefixOfTails(a: seq<Bytes>, b: seq<Bytes>)
    requires a != [] && b != [] && a[0] == b[0]
    ensures a <= b <==> a[1..] <= b[1..]
  {
    assert a == [a[0]] + a[1..] && b == [b[0]] + b[1..];
  }

  lemma {:induction false} RelGoesUp(root: seq<Bytes>, target: seq<Bytes>)
    requires !(root <= target)
    ensures RelParts(root, target) != [] && RelParts(root, target)[0] == ".."
  {
    if root != [] && target != [] && root[0] == target[0] {
      PrefixOfTails(root, target);
      RelGoesUp(root[1..], target[1..]);
    }
  }

  lemma {:induction false} RootedHasNoParent(stack: seq<Bytes>, parts: seq<Bytes>)
    requires forall i :: 0 <= i < |stack| ==> stack[i] != ".."
    ensures forall i :: 0 <= i < |PushAll(true, stack, parts)| ==> PushAll(true, stack, parts)[i] != ".."
  {
    if parts != [] {
      RootedHasNoParent(stack, Init(parts));
    }
  }

  lemma RelIsParts(root: seq<Bytes>, target: seq<Bytes>)
    requires AreParts(target)
    ensures AreParts(RelParts(root, target))
  {
  }

  /** The second check accepts exactly the targets whose components start with the root's. */
  lemma WithinRootExactly(root: Bytes, target: Bytes)
    requires IsAbs(root) && IsAbs(target)
    ensures IsWithinRoot(root, target) <==> CleanParts(root) <= CleanParts(target)
  {
    hide IsPart, PushAll, HasPrefix;
    var r, t := CleanParts(root), CleanParts(target);
    CleanAreParts(target);
    RelIsParts(r, t);
    var parts := RelParts(r, t);
    if parts != [] {
      FirstComponentShows(parts);
    }
    if r <= t {
      var tail := t[|r|..];
      assert t == r + tail;
      RelOfPrefix(r, tail);
      RootedHasNoParent([], Split(target));
      assert forall i :: 0 <= i < |tail| ==> tail[i] == t[|r| + i];
    } else {
      RelGoesUp(r, t);
    }
  }

  lemma {:induction false} SplitJoined(ps: seq<Bytes>)
    requires ps != [] && AreParts(ps)
    ensures Split(JoinSlash(ps)) == ps
  {
    assert IsPart(ps[0]);
    if |ps| == 1 {
      assert IndexOf(ps[0], '/') == |ps[0]|;
    } else {
      forall i | 0 <= i < |ps[1..]| ensures IsPart(ps[1..][i]) {
        assert IsPart(ps[i + 1]);
      }
      SplitJoined(ps[1..]);
      SplitAppend(ps[0], JoinSlash(ps[1..]));
      assert IndexOf(ps[0], '/') == |ps[0]|;
      assert Split(ps[0]) == [ps[0]];
    }
  }

  lemma {:induction false} PushOwnParts(ps: seq<Bytes>)
    requires AreParts(ps) && forall i :: 0 <= i < |ps| ==> ps[i] != ".."
    ensures PushAll(true, [], ps) == ps
  {
    if ps != [] {
      PushOwnParts(Init(ps));
      assert IsPart(Last(ps)) && Last(ps) != "..";
    }
  }

  /** Cleaning an absolute path gives an absolute path with the same components. */
  lemma CleanKeepsComponents(s: Bytes)
    requires IsAbs(s)
    ensures IsAbs(Clean(s)) && CleanParts(Clean(s)) == CleanParts(s)
  {
    var ps := CleanParts(s);
    CleanAreParts(s);
    RootedHasNoParent([], Split(s));
    PushOwnParts(ps);
    var t := JoinSlash(ps);
    assert [] + "/" + t == "/" + t;
    SplitAppend([], t);
    EmptySplits();
    PushAllAppend(true, [], [[]], Split(t));
    if ps != [] {
      SplitJoined(ps);
    }
  }

  lemma EmptySplits()
    ensures Split([]) == [[]] && PushAll(true, [], [[]]) == [] && PushAll(false, [], [[]]) == []
  {
    var one: seq<Bytes> := [[]];
    assert Init(one) == [] && Last(one) == "";
  }

  /** Joining an accepted path to any absolute root stays inside the root, and adds exactly the path's components. */
  lemma SafePathStaysInside(root: Bytes, path: Bytes)
    requires IsAbs(root) && IsSafeStaticPath(path)
    ensures IsAbs(Join(root, path)) && CleanParts(Join(root, path)) == CleanParts(root) + CleanParts(path)
    ensures IsWithinRoot(root, Join(root, path))
  {
    var full := root + "/" + path;
    assert full[0] == root[0];
    SplitAppend(root, path);
    PushAllAppend(true, [], Split(root), Split(path));
    if path == [] {
      EmptySplits();
    } else {
      SafeExactly(path);
    }
    PushedAbove(CleanParts(root), Split(path));
    CleanKeepsComponents(full);
    WithinRootExactly(root, Join(root, path));
  }

  // ---- What cleaning does, stated on paths. ----

  /** A component that is neither empty nor a dot nor a double dot. */
  predicate IsName(p: Bytes) {
    IsPart(p) && p != ".."
  }

  lemma MiddleComponent(a: Bytes, p: Bytes, b: Bytes)
    requires '/' !in p
    ensures Split(a + "/" + (p + "/" + b)) == Split(a) + ([p] + Split(b))
    ensures Split(a + "/" + b) == Split(a) + Split(b)
    ensures IsAbs(a + "/" + (p + "/" + b)) <==> IsAbs(a + "/" + b)
  {
    SplitAppend(a, p + "/" + b);
    SplitAppend(p, b);
    SplitWhole(p);
    SplitAppend(a, b);
  }

  /** Components that change nothing can be left out. */
  lemma NoEffect(rooted: bool, a: seq<Bytes>, middle: seq<Bytes>, b: seq<Bytes>)
    requires PushAll(rooted, PushAll(rooted, [], a), middle) == PushAll(rooted, [], a)
    ensures PushAll(rooted, [], a + (middle + b)) == PushAll(rooted, [], a + b)
  {
    Assoc(a, middle, b);
    PushAllAppend(rooted, [], a + middle, b);
    PushAllAppend(rooted, [], a, middle);
    PushAllAppend(rooted, [], a, b);
  }

  /** Dots and empty components vanish. */
  lemma DotVanishes(a: Bytes, dot: Bytes, b: Bytes)
    requires dot == "." || dot == ""
    ensures Clean(a + "/" + (dot + "/" + b)) == Clean(a + "/" + b)
  {
    MiddleComponent(a, dot, b);
    var rooted := IsAbs(a + "/" + b);
    assert Init([dot]) == [];
    NoEffect(rooted, Split(a), [dot], Split(b));
  }

  lemma PushAndPop(rooted: bool, stack: seq<Bytes>, p: Bytes)
    requires IsName(p)
    ensures PushAll(rooted, stack, [p, ".."]) == stack
  {
    assert Init([p, ".."]) == [p] && Init([p]) == [];
    assert PushAll(rooted, stack, [p]) == stack + [p];
    assert Init(stack + [p]) == stack;
  }

  /** A double dot removes the component in front of it. */
  lemma ParentVanishes(a: Bytes, p: Bytes, b: Bytes)
    requires IsName(p)
    ensures Clean(a + "/" + (p + "/" + (".." + "/" + b))) == Clean(a + "/" + b)
  {
    hide Split, PushAll, IsPart, JoinSlash, IsAbs;
    var up := ".." + "/" + b;
    assert '/' !in p && '/' !in ".." by {
      assert IsPart(p);
      NameHasNoSlash(p);
    }
    MiddleComponent(a, p, up);
    MiddleComponent(a, "..", b);
    SplitAppend("..", b);
    SplitWhole("..");
    var rooted := IsAbs(a + "/" + b);
    PushAndPop(rooted, PushAll(rooted, [], Split(a)), p);
    NoEffect(rooted, Split(a), [p, ".."], Split(b));
    assert [p] + ([".."] + Split(b)) == [p, ".."] + Split(b);
  }

  lemma NameHasNoSlash(p: Bytes)
    requires IsPart(p)
    ensures '/' !in p
  {
  }

  /** The root is its own parent. */
  lemma RootHasNoParent(b: Bytes)
    ensures Clean("/" + (".." + "/" + b)) == Clean("/" + b)
  {
    assert [] + "/" + (".." + "/" + b) == "/" + (".." + "/" + b) && [] + "/" + b == "/" + b;
    MiddleComponent([], "..", b);
    EmptySplits();
    assert Init([".."]) == [];
    NoEffect(true, Split([]), [".."], Split(b));
  }

  /** Components that cleaning leaves alone: names, behind double dots where the path is relative. */
  predicate AreClean(rooted: bool, ps: seq<Bytes>) {
    && AreParts(ps)
    && (rooted ==> forall i :: 0 <= i < |ps| ==> ps[i] != "..")
    && (forall i, j :: 0 <= i < j < |ps| && ps[j] == ".." ==> ps[i] == "..")
  }

  lemma {:induction false} CleanIsClean(rooted: bool, parts: seq<Bytes>)
    requires forall i :: 0 <= i < |parts| ==> '/' !in parts[i]
    ensures AreClean(rooted, PushAll(rooted, [], parts))
  {
    if parts != [] {
      var st := PushAll(rooted, [], Init(parts));
      CleanIsClean(rooted, Init(parts));
      var t := Push(rooted, st, Last(parts));
      if st != [] && Last(st) == ".." {
        forall i | 0 <= i < |st| ensures st[i] == ".." {
          assert st[|st| - 1] == "..";
        }
      }
    }
  }

  lemma InitIsClean(rooted: bool, ps: seq<Bytes>)
    requires AreClean(rooted, ps) && ps != []
    ensures AreClean(rooted, Init(ps))
  {
    hide IsPart;
    var g := Init(ps);
    assert forall i :: 0 <= i < |g| ==> g[i] == ps[i];
  }

  lemma CleanStep(rooted: bool, ps: seq<Bytes>)
    requires AreClean(rooted, ps) && ps != []
    ensures Push(rooted, Init(ps), Last(ps)) == ps
  {
    var g, p := Init(ps), Last(ps);
    assert IsPart(ps[|ps| - 1]);
    hide IsPart;
    assert g + [p] == ps;
    if p == ".." && g != [] {
      assert ps[|g| - 1] == "..";
    }
  }

  lemma {:induction false} CleanStays(rooted: bool, ps: seq<Bytes>)
    requires AreClean(rooted, ps)
    ensures PushAll(rooted, [], ps) == ps
  {
    hide AreClean, Push;
    if ps != [] {
      InitIsClean(rooted, ps);
      CleanStep(rooted, ps);
      CleanStays(rooted, Init(ps));
    }
  }

  /** Cleaned components are exactly those that cleaning leaves alone. */
  lemma CleanExactly(s: Bytes)
    ensures AreClean(IsAbs(s), CleanParts(s))
    ensures AreClean(IsAbs(s), Split(s)) ==> CleanParts(s) == Split(s)
  {
    SplitHasNoSlash(s);
    CleanIsClean(IsAbs(s), Split(s));
    if AreClean(IsAbs(s), Split(s)) {
      CleanStays(IsAbs(s), Split(s));
    }
  }
}
