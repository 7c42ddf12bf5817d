/** Byte strings and the small text helpers that the normalizer and the request parser share.
  * A byte is modelled as the character with the same code, so byte literals read as in the source. */
module Text {

  type Bytes = seq<char>

  datatype Option<+T> = None | Some(value: T)

  /** The six ASCII white-space bytes: space, TAB, LF, VT, FF and CR. */
  predicate IsSpace(c: char) {
    c == ' ' || 9 <= c as int <= 13
  }

  function Lower(c: char): char {
    if 'A' <= c <= 'Z' then (c as int + 32) as char else c
  }

  function LowerAll(s: Bytes): (r: Bytes)
    ensures |r| == |s|
    ensures forall k :: 0 <= k < |s| ==> r[k] == Lower(s[k])
  {
    seq(|s|, k requires 0 <= k < |s| => Lower(s[k]))
  }

  function Last<T>(s: seq<T>): T
    requires s != []
  {
    s[|s| - 1]
  }

  function Init<T>(s: seq<T>): seq<T>
    requires s != []
  {
    s[..|s| - 1]
  }

  lemma InitAppend<T>(s: seq<T>, x: T)
    ensures Init(s + [x]) == s && Last(s + [x]) == x
  {
  }

  lemma Assoc<T>(a: seq<T>, b: seq<T>, c: seq<T>)
    ensures a + (b + c) == (a + b) + c
  {
  }

  /** The concatenation of a list of pieces. */
  function Flatten<T>(parts: seq<seq<T>>): seq<T> {
    if parts == [] then [] else parts[0] + Flatten(parts[1..])
  }

  lemma {:induction false} FlattenAppend<T>(a: seq<seq<T>>, b: seq<seq<T>>)
    ensures Flatten(a + b) == Flatten(a) + Flatten(b)
  {
    if a == [] {
      assert a + b == b;
    } else {
      FlattenAppend(a[1..], b);
      assert (a + b)[0] == a[0] && (a + b)[1..] == a[1..] + b;
      Assoc(a[0], Flatten(a[1..]), Flatten(b));
    }
  }

  lemma FlattenSnoc<T>(a: seq<seq<T>>, x: seq<T>)
    ensures Flatten(a + [x]) == Flatten(a) + x
  {
    FlattenAppend(a, [x]);
    assert Flatten([x]) == x + Flatten<T>([]) == x;
  }

  /** `pattern` occurs in `text` as a contiguous piece. */
  ghost predicate Occurs(pattern: Bytes, text: Bytes) {
    exists k :: OccursAt(pattern, text, k)
  }

  predicate OccursAt(pattern: Bytes, text: Bytes, k: int) {
    0 <= k <= |text| - |pattern| && text[k..k + |pattern|] == pattern
  }

  predicate IsSuffix(p: Bytes, w: Bytes) {
    |p| <= |w| && w[|w| - |p|..] == p
  }

  /** The maximal white-space free pieces of `s`, in order. */
  function Fields(s: Bytes): seq<Bytes> {
    if s == [] then []
    else if IsSpace(Last(s)) then Fields(Init(s))
    else if Init(s) == [] || IsSpace(Last(Init(s))) || Fields(Init(s)) == [] then Fields(Init(s)) + [[Last(s)]]
    else Init(Fields(Init(s))) + [Last(Fields(Init(s))) + [Last(s)]]
  }

  /** The pieces separated by single spaces. */
  function Joined(words: seq<Bytes>): Bytes {
    if words == [] then []
    else if |words| == 1 then words[0]
    else Joined(Init(words)) + [' '] + Last(words)
  }
}
