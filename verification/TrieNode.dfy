/** The node of the subscription trie, its shape, and the plain meaning of a trie:
    how often each string is subscribed to. */
module TrieNode {
  import opened Common

  const PREFIX_MAX := 10
  const SPARSE_MAX := 8

  /** The union in the node header. The child pointers themselves are `slots`. */
  datatype Kids =
    | Sparse(chars: Bytes)
    | Dense(min: byte, max: byte, nbr: nat)

  datatype Node = Node(refcount: nat, prefix: Bytes, kids: Kids, slots: seq<Option<Node>>)

  /** Number of non-NULL child pointers. */
  function Present(slots: seq<Option<Node>>): nat {
    if slots == [] then 0
    else Present(slots[..|slots| - 1]) + if slots[|slots| - 1].Some? then 1 else 0
  }

  /** The shape one node must have, leaving its children aside. */
  ghost predicate LocalShape(n: Node) {
    && n.refcount < TWO_32
    && |n.prefix| <= PREFIX_MAX
    && match n.kids
       case Sparse(chars) =>
         && |chars| == |n.slots| <= SPARSE_MAX
         && Distinct(chars)
         && (forall i | 0 <= i < |n.slots| :: n.slots[i].Some?)
         && (chars == [] ==> n.refcount > 0)
       case Dense(min, max, nbr) => DenseShape(min, max, nbr, n.slots)
  }

  ghost predicate DenseShape(min: byte, max: byte, nbr: nat, slots: seq<Option<Node>>) {
    && |slots| == max - min + 1 > 0
    && slots[0].Some?
    && slots[max - min].Some?
    && nbr == Present(slots)
    && nbr > SPARSE_MAX
  }

  ghost predicate Shape(n: Node)
    decreases n
  {
    && LocalShape(n)
    && forall i | 0 <= i < |n.slots| :: n.slots[i].Some? ==> Shape(n.slots[i].value)
  }

  ghost predicate AllShape(slots: seq<Option<Node>>) {
    forall i | 0 <= i < |slots| :: slots[i].Some? ==> Shape(slots[i].value)
  }

  lemma ShapeParts(n: Node)
    ensures Shape(n) <==> LocalShape(n) && AllShape(n.slots)
  {}

  /** A child array made of pointers from `from` and possibly `x` is well-shaped if they are. */
  lemma AllShapeFrom(slots: seq<Option<Node>>, from: seq<Option<Node>>, x: Option<Node>)
    requires AllShape(from) && (x.Some? ==> Shape(x.value))
    requires forall j | 0 <= j < |slots| :: slots[j].None? || slots[j] == x || slots[j] in from
    ensures AllShape(slots)
  {}

  ghost predicate ShapeOpt(t: Option<Node>) {
    t.Some? ==> Shape(t.value)
  }

  predicate IsFirst(chars: Bytes, c: byte, i: int) {
    0 <= i < |chars| && chars[i] == c && forall j | 0 <= j < i :: chars[j] != c
  }

  lemma {:induction false} HasFirst(chars: Bytes, c: byte, n: nat)
    requires n <= |chars| && exists i | 0 <= i < n :: chars[i] == c
    ensures exists i :: IsFirst(chars, c, i)
  {
    if exists i | 0 <= i < n - 1 :: chars[i] == c {
      HasFirst(chars, c, n - 1);
    } else {
      assert IsFirst(chars, c, n - 1);
    }
  }

  /** Position of the first `c` in `chars`, or `|chars|`. */
  function FindChar(chars: Bytes, c: byte): (i: nat)
    ensures i <= |chars|
    ensures i < |chars| ==> chars[i] == c
    ensures forall j | 0 <= j < i :: chars[j] != c
  {
    if c !in chars then |chars| else
    HasFirst(chars, c, |chars|);
    var i :| 0 <= i < |chars| && IsFirst(chars, c, i);
    i
  }

  /** The slot that belongs to character `c`, if the node has one. */
  function Index(n: Node, c: byte): (r: Option<nat>) {
    match n.kids
    case Sparse(chars) =>
      var i := FindChar(chars, c);
      if i < |chars| then Some(i) else None
    case Dense(min, max, _) =>
      if c < min || c > max then None else Some(c - min)
  }

  /** The child reached by `c`; NULL both for an empty slot and for no slot at all. */
  function Child(n: Node, c: byte): Option<Node> {
    var i := Index(n, c);
    if i.Some? && i.value < |n.slots| then n.slots[i.value] else None
  }

  /** How often the string `u` is subscribed to below `n`. */
  function Count(n: Node, u: Bytes): nat
    decreases |u|, 0
  {
    if !(n.prefix <= u) then 0
    else if |u| == |n.prefix| then n.refcount
    else CountOpt(Child(n, u[|n.prefix|]), u[|n.prefix| + 1..])
  }

  function CountOpt(t: Option<Node>, u: Bytes): nat
    decreases |u|, 1
  {
    if t.None? then 0 else Count(t.value, u)
  }

  /** Stores a pointer in the slot of `c`. */
  function SetSlot(n: Node, c: byte, x: Option<Node>): Node {
    var i := Index(n, c);
    if i.Some? && i.value < |n.slots| then n.(slots := n.slots[i.value := x]) else n
  }

  /** `u` continues below the child of `n` at `c`. */
  predicate Through(n: Node, c: byte, u: Bytes) {
    n.prefix <= u && |n.prefix| < |u| && u[|n.prefix|] == c
  }

  lemma SetSlotCounts(n: Node, c: byte, x: Option<Node>, u: Bytes)
    requires Index(n, c).Some? && Index(n, c).value < |n.slots|
    ensures Count(SetSlot(n, c, x), u) ==
            if Through(n, c, u) then CountOpt(x, u[|n.prefix| + 1..]) else Count(n, u)
  {
    var m := SetSlot(n, c, x);
    if n.prefix <= u && |u| > |n.prefix| {
      var d := u[|n.prefix|];
      assert Child(m, d) == if d == c then x else Child(n, d) by {
        assert Index(m, d) == Index(n, d);
        if d != c && Index(n, d).Some? {
          assert Index(n, d).value != Index(n, c).value;
        }
      }
    }
  }

  /** What the subscription below a node's own string looks like from the node's parent. */
  lemma CountBelow(n: Node, c: byte, v: Bytes)
    ensures Count(n, n.prefix + [c] + v) == CountOpt(Child(n, c), v)
    ensures Through(n, c, n.prefix + [c] + v)
  {
    var u := n.prefix + [c] + v;
    assert n.prefix <= u;
    assert u[|n.prefix|] == c;
    assert u[|n.prefix| + 1..] == v;
  }

  lemma PresentSplit(a: seq<Option<Node>>, b: seq<Option<Node>>)
    ensures Present(a + b) == Present(a) + Present(b)
  {
    if b == [] {
      assert a + b == a;
    } else {
      PresentSplit(a, b[..|b| - 1]);
      assert (a + b)[..|a + b| - 1] == a + b[..|b| - 1];
    }
  }

  lemma PresentUpdate(s: seq<Option<Node>>, i: nat, x: Option<Node>)
    requires i < |s|
    ensures Present(s[i := x]) ==
            Present(s) - (if s[i].Some? then 1 else 0) + (if x.Some? then 1 else 0)
  {
    assert s == s[..i] + ([s[i]] + s[i + 1..]);
    assert s[i := x] == s[..i] + ([x] + s[i + 1..]);
    PresentSplit(s[..i], [s[i]] + s[i + 1..]);
    PresentSplit(s[..i], [x] + s[i + 1..]);
    PresentSplit([s[i]], s[i + 1..]);
    PresentSplit([x], s[i + 1..]);
    assert [s[i]][..0] == [] && [x][..0] == [];
  }

  lemma PresentNone(s: seq<Option<Node>>)
    requires forall i | 0 <= i < |s| :: s[i].None?
    ensures Present(s) == 0
  {
    if s != [] { PresentNone(s[..|s| - 1]); }
  }

  lemma PresentSome(s: seq<Option<Node>>)
    requires Present(s) > 0
    ensures exists i :: 0 <= i < |s| && s[i].Some?
  {
    if forall i | 0 <= i < |s| :: s[i].None? { PresentNone(s); }
  }

  /** Every well-shaped node stores a subscription somewhere below it, so a trie
      without subscriptions is the NULL root. */
  lemma {:induction false} LiveBelow(n: Node) returns (u: Bytes)
    requires Shape(n)
    ensures n.prefix <= u && Count(n, u) > 0
    decreases n
  {
    if n.refcount > 0 {
      u := n.prefix;
    } else {
      var c: byte;
      match n.kids {
        case Sparse(chars) => c := chars[0]; assert FindChar(chars, c) == 0;
        case Dense(min, _, _) => c := min;
      }
      var ch := n.slots[0].value;
      assert Child(n, c) == Some(ch);
      var v := LiveBelow(ch);
      u := n.prefix + [c] + v;
      CountBelow(n, c, v);
    }
  }

  lemma RootNullIffEmpty(t: Option<Node>)
    requires ShapeOpt(t)
    ensures t.None? <==> forall u :: CountOpt(t, u) == 0
  {
    if t.Some? { var u := LiveBelow(t.value); assert CountOpt(t, u) > 0; }
  }
}
