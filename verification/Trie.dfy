/** The trie object: the source's loops, proved against the functions of the other modules. */
module Trie {
  import opened Common
  import opened TrieNode
  import opened TrieSubscribe
  import opened TrieUnsubscribe
  import opened TrieMatch

  /** One step of the path along which the pointer `node` was moved: a slot of a node. */
  datatype Frame = Frame(node: Node, slot: nat)

  /** The tree that results from storing `x` through the pointer. */
  function Plug(path: seq<Frame>, x: Node): Node {
    if path == [] then x else
    var Frame(n, i) := path[|path| - 1];
    Plug(path[..|path| - 1], if i < |n.slots| then n.(slots := n.slots[i := Some(x)]) else n)
  }

  lemma PlugStep(path: seq<Frame>, n: Node, i: nat, x: Node)
    requires i < |n.slots|
    ensures Plug(path + [Frame(n, i)], x) == Plug(path, n.(slots := n.slots[i := Some(x)]))
  {
    assert (path + [Frame(n, i)])[..|path|] == path;
  }

  /** nn_node_check_prefix. */
  method CheckPrefix(p: Bytes, mem: Memory, pos: nat, size: int) returns (i: nat)
    ensures i <= |p| && (size >= 0 ==> i <= size)
    ensures forall j | 0 <= j < i :: mem(pos + j) == p[j]
    ensures i < |p| ==> size == i || mem(pos + i) != p[i]
    ensures i == |p| <==> PrefixAt(p, mem, pos, size)
  {
    i := 0;
    var left := size;
    while i != |p|
      invariant i <= |p| && left == size - i && (size >= 0 ==> left >= 0)
      invariant forall j | 0 <= j < i :: mem(pos + j) == p[j]
    {
      if left == 0 || p[i] != mem(pos + i) { return; }
      i := i + 1;
      left := left - 1;
    }
  }

  /** nn_node_next: the index of the pointer, if there is one. */
  method NextSlot(n: Node, c: byte) returns (r: Option<nat>)
    ensures r == Index(n, c)
  {
    match n.kids {
      case Sparse(chars) =>
        var i := 0;
        while i != |chars|
          invariant i <= |chars|
          invariant forall j | 0 <= j < i :: chars[j] != c
        {
          if chars[i] == c {
            assert FindChar(chars, c) == i;
            return Some(i);
          }
          i := i + 1;
        }
        return None;
      case Dense(min, max, _) =>
        return if c < min || c > max then None else Some(c - min);
    }
  }

  /** The range of characters a widened node has to cover. */
  method RangeOf(chars: Bytes, c: byte) returns (min: byte, max: byte)
    ensures min == MinOf(chars, c) && max == MaxOf(chars, c)
  {
    min, max := 255, 0;
    var i := 0;
    while i != |chars|
      invariant i <= |chars|
      invariant MinByte(min, c) == MinOf(chars[..i], c) && MaxByte(max, c) == MaxOf(chars[..i], c)
    {
      assert chars[..i + 1][..i] == chars[..i];
      min := MinByte(min, chars[i]);
      max := MaxByte(max, chars[i]);
      i := i + 1;
    }
    assert chars[..i] == chars;
    min, max := MinByte(min, c), MaxByte(max, c);
  }

  /** Copies the pointers of a sparse node into a cleared array. */
  method CopySlots(chars: Bytes, from: seq<Option<Node>>, min: byte, size: nat) returns (slots: seq<Option<Node>>)
    requires |chars| == |from| && Distinct(chars) && min + size <= 256
    requires forall i | 0 <= i < |chars| :: min <= chars[i] < min + size
    ensures slots == Spread(chars, from, min, size)
  {
    slots := Nulls(size);
    var i := 0;
    forall j | 0 <= j < size ensures Spread(chars[..i], from[..i], min, size)[j] == None {
      assert FindChar(chars[..i], min + j) == 0;
    }
    while i != |chars|
      invariant i <= |chars|
      invariant slots == Spread(chars[..i], from[..i], min, size)
    {
      ghost var cs, fs := chars[..i + 1], from[..i + 1];
      assert cs[..i] == chars[..i] && fs[..i] == from[..i];
      SpreadLast(cs, fs, min, size);
      slots := slots[chars[i] - min := from[i]];
      i := i + 1;
    }
    assert chars[..i] == chars && from[..i] == from;
  }

  /** The conversion of a full sparse node: the range is searched, then the pointers are copied. */
  method Widen(n: Node, c: byte) returns (m: Node)
    requires LocalShape(n) && Child(n, c).None? && Widens(n)
    ensures m == AddSlot(n, c)
  {
    var min, max := RangeOf(n.kids.chars, c);
    var slots := CopySlots(n.kids.chars, n.slots, min, max as int - min as int + 1);
    m := Node(0, n.prefix, Dense(min, max, |n.kids.chars| + 1), slots);
  }

  lemma WalkStep(n: Node, data: Bytes, i: nat)
    requires Shape(n) && n.prefix <= data && |n.prefix| < |data|
    requires Index(n, data[|n.prefix|]) == Some(i) && i < |n.slots| && n.slots[i].Some?
    ensures Descends(n, data) && ShapeOpt(n.slots[i])
    ensures var rest := data[|n.prefix| + 1..];
            && Subscribe(Some(n), data) == n.(slots := n.slots[i := Some(Subscribe(n.slots[i], rest))])
            && Count(n, data) == CountOpt(n.slots[i], rest)
  {}

  lemma WalkPath(path: seq<Frame>, n: Node, data: Bytes, i: nat, child: Option<Node>, rest: Bytes)
    requires Shape(n) && n.prefix <= data && |n.prefix| < |data|
    requires Index(n, data[|n.prefix|]) == Some(i) && i < |n.slots|
    requires child == n.slots[i] && child.Some? && rest == data[|n.prefix| + 1..]
    ensures ShapeOpt(child)
    ensures Plug(path, Subscribe(Some(n), data)) == Plug(path + [Frame(n, i)], Subscribe(child, rest))
    ensures CountOpt(Some(n), data) == CountOpt(child, rest)
  {
    WalkStep(n, data, i);
    PlugStep(path, n, i, Subscribe(child, rest));
  }

  /** Step 1: follows the string as far as there are nodes for it. */
  method Walk(root: Option<Node>, s: Bytes) returns (path: seq<Frame>, node: Option<Node>, data: Bytes)
    requires ShapeOpt(root)
    ensures ShapeOpt(node) && (node.Some? ==> !Descends(node.value, data))
    ensures Subscribe(root, s) == Plug(path, Subscribe(node, data))
    ensures CountOpt(root, s) == CountOpt(node, data)
  {
    path, node, data := [], root, s;
    while node.Some?
      invariant ShapeOpt(node)
      invariant Subscribe(root, s) == Plug(path, Subscribe(node, data))
      invariant CountOpt(root, s) == CountOpt(node, data)
      decreases |data|
    {
      var n := node.value;
      var pos := MatchLength(n.prefix, data);
      if pos < |n.prefix| || pos == |data| { return; }
      var next := NextSlot(n, data[pos]);
      if next.None? || n.slots[next.value].None? { return; }
      var child, rest := n.slots[next.value], data[pos + 1..];
      WalkPath(path, n, data, next.value, child, rest);
      path, node, data := path + [Frame(n, next.value)], child, rest;
    }
  }

  /** Step 4: creates the nodes for the rest of the subscription. */
  method Grow(start: seq<Frame>, s: Bytes) returns (root: Node)
    ensures root == Plug(start, Fresh(s))
  {
    var path, data := start, s;
    while |data| > PREFIX_MAX
      invariant Plug(start, Fresh(s)) == Plug(path, Fresh(data))
    {
      var n := Node(0, data[..PREFIX_MAX], Sparse([data[PREFIX_MAX]]), [None]);
      var x := Fresh(data[PREFIX_MAX + 1..]);
      assert Fresh(data) == n.(slots := n.slots[0 := Some(x)]);
      PlugStep(path, n, 0, x);
      path := path + [Frame(n, 0)];
      data := data[PREFIX_MAX + 1..];
    }
    root := Plug(path, Node(1, data, Sparse([]), []));
  }

  lemma StopRefcount(n: Node, s: Bytes)
    requires Shape(n) && !Descends(n, s)
    ensures var (m, rest) := Stop(n, s);
            Count(n, s) == if rest == [] then m.refcount else 0
  {
    if n.prefix <= s && |s| == |n.prefix| { assert s == n.prefix; }
  }

  class Trie {
    /** NULL until the first subscription. */
    var root: Option<Node>

    constructor ()
      ensures root == None
    {
      root := None;
    }

    /** nn_trie_subscribe. Storing through the pointer that the walk has moved is `Plug`. */
    method Subscribe(s: Bytes) returns (rc: int)
      requires ShapeOpt(root)
      modifies this
      ensures root == Some(TrieSubscribe.Subscribe(old(root), s))
      ensures rc == if CountOpt(old(root), s) == 0 then 1 else 0
    {
      var path, node, data := Walk(root, s);
      if node.Some? {
        var n := node.value;
        StopRefcount(n, data);
        var pos := MatchLength(n.prefix, data);
        if pos < |n.prefix| { n := Split(n, pos); }
        ghost var all := data;
        data := data[pos..];
        assert (n, data) == Stop(node.value, all);
        if data == [] {
          n := n.(refcount := Inc32(n.refcount));
          root := Some(Plug(path, n));
          rc := if n.refcount == 1 then 1 else 0;
          return;
        }
        var c := data[0];
        AddSlotChildren(n, c, c);
        if Widens(n) { n := Widen(n, c); } else { n := AddSlot(n, c); }
        var k := NextSlot(n, c);
        data := data[1..];
        PlugStep(path, n, k.value, Fresh(data));
        path := path + [Frame(n, k.value)];
      }
      var r := Grow(path, data);
      root := Some(r);
      rc := 1;
    }

    /** nn_trie_unsubscribe; `Crash` leaves no trie to speak of. */
    method Unsubscribe(s: Bytes) returns (out: Outcome)
      requires ShapeOpt(root)
      modifies this
      ensures out == TrieUnsubscribe.Unsubscribe(old(root), s)
      ensures out.Done? ==> root == out.node
    {
      out := UnsubscribeNode(root, s);
      if out.Done? { root := out.node; }
    }

    /** nn_trie_match. */
    method Match(mem: Memory, size: nat) returns (rc: int)
      ensures rc == if TrieMatch.Match(root, mem, 0, size) then 1 else 0
    {
      if root.None? { return 0; }
      var n, pos, left: int := root.value, 0, size;
      while true
        invariant pos >= 0
        invariant TrieMatch.Match(root, mem, 0, size) <==> MatchNode(n, mem, pos, left)
        decreases n
      {
        var k := CheckPrefix(n.prefix, mem, pos, left);
        if k != |n.prefix| { return 0; }
        pos := pos + k;
        left := left - k;
        if n.refcount > 0 { return 1; }
        var c := mem(pos);
        var next := NextSlot(n, c);
        if next.None? || next.value >= |n.slots| || n.slots[next.value].None? { return 0; }
        ChildSmaller(n, c);
        n := n.slots[next.value].value;
        pos := pos + 1;
        left := left - 1;
      }
    }
  }

  /** The loop that looks for the new lower limit of a dense node. */
  method ScanUp(slots: seq<Option<Node>>) returns (i: nat)
    ensures i == FirstSome(slots)
  {
    i := 0;
    while i != |slots|
      invariant i <= |slots|
      invariant forall j | 0 <= j < i :: slots[j].None?
    {
      if slots[i].Some? { break; }
      i := i + 1;
    }
  }

  /** The loop that looks for the new upper limit of a dense node. */
  method ScanDown(slots: seq<Option<Node>>) returns (i: nat)
    requires slots != []
    ensures i == LastSome(slots)
  {
    i := |slots| - 1;
    while i != 0
      invariant i < |slots|
      invariant forall j | i < j < |slots| :: slots[j].None?
    {
      if slots[i].Some? { break; }
      i := i - 1;
    }
  }

  /** The loop that collects the children of a dense node. */
  method Collect(slots: seq<Option<Node>>, min: byte) returns (chars: Bytes, kids: seq<Option<Node>>)
    requires min + |slots| <= 256
    ensures (chars, kids) == Gather(slots, min)
  {
    chars, kids := [], [];
    var i := 0;
    while i != |slots|
      invariant i <= |slots|
      invariant (chars, kids) == Gather(slots[..i], min)
    {
      assert slots[..i + 1][..i] == slots[..i];
      if slots[i].Some? { chars, kids := chars + [min + i], kids + [slots[i]]; }
      i := i + 1;
    }
    assert slots[..i] == slots;
  }

  /** What nn_node_unsubscribe does when the node below `c` is gone. */
  method Remove(n: Node, c: byte) returns (out: Outcome)
    requires LocalShape(n) && Index(n, c).Some?
    ensures out == RemoveSlot(n, c)
  {
    match n.kids {
      case Sparse(chars) =>
        var index := NextSlot(n, c);
        var m := n.(kids := Sparse(Cut(chars, index.value)), slots := Cut(n.slots, index.value));
        if m.slots == [] && n.refcount == 0 { return Done(None, 1); }
        CutFinds(chars, index.value, c);
        return Done(Some(Compact(m)), 1);
      case Dense(min, max, nbr) =>
        var slots := n.slots[c - min := None];
        if nbr > SPARSE_MAX + 1 {
          var m := Thin(n, c);
          return Done(Some(m), 1);
        }
        var chars, kids := Collect(slots, min);
        if |kids| != SPARSE_MAX { return Crash; }
        return Done(Some(Node(0, n.prefix, Sparse(chars), kids)), 1);
    }
  }

  /** A dense node that stays dense gets new limits if the child was at one end. */
  method Thin(n: Node, c: byte) returns (m: Node)
    requires LocalShape(n) && n.kids.Dense? && Index(n, c).Some? && n.kids.nbr > SPARSE_MAX + 1
    ensures m == ThinDense(n, c)
  {
    var Dense(min, max, nbr) := n.kids;
    var slots := n.slots[c - min := None];
    if c == min {
      PresentUpdate(n.slots, c - min, None);
      PresentSome(slots);
      var i := ScanUp(slots);
      m := n.(kids := Dense(min + i, max, nbr - 1), slots := slots[i..]);
    } else if c == max {
      var i := ScanDown(slots);
      m := n.(kids := Dense(min, min + i, nbr - 1), slots := slots[..i + 1]);
    } else {
      m := n.(kids := Dense(min, max, nbr - 1), slots := slots);
    }
  }

  /** nn_node_unsubscribe. */
  method UnsubscribeNode(t: Option<Node>, s: Bytes) returns (out: Outcome)
    requires ShapeOpt(t)
    ensures out == TrieUnsubscribe.Unsubscribe(t, s)
    decreases |s|
  {
    if s == [] { return Found(t); }
    if t.None? { return Crash; }
    var n := t.value;
    var k := MatchLength(n.prefix, s);
    if k != |n.prefix| { return Done(t, 0); }
    var data := s[k..];
    if data == [] { return Found(t); }
    var index := NextSlot(n, data[0]);
    if index.None? { return Done(t, 0); }
    var c, i := data[0], index.value;
    assert data[1..] == s[k + 1..];
    out := UnsubscribeNode(n.slots[i], data[1..]);
    if out.Crash? { return; }
    if out.rc == 0 { return Done(Some(SetSlot(n, c, out.node)), 0); }
    if out.node.Some? { return Done(Some(SetSlot(n, c, out.node)), 1); }
    out := Remove(n, c);
  }

  /** nn_node_check_prefix on the bytes of a subscription. */
  method MatchLength(p: Bytes, data: Bytes) returns (k: nat)
    ensures k == CommonLen(p, data)
  {
    var mem: Memory := (i: nat) => if i < |data| then data[i] else 0;
    k := CheckPrefix(p, mem, 0, |data|);
    CommonLenUnique(p, data, k);
  }

  lemma {:induction false} CommonLenUnique(p: Bytes, s: Bytes, k: nat)
    requires k <= |p| && k <= |s|
    requires forall j | 0 <= j < k :: p[j] == s[j]
    requires k < |p| ==> k == |s| || p[k] != s[k]
    ensures k == CommonLen(p, s)
  {
    if k > 0 { CommonLenUnique(p[1..], s[1..], k - 1); }
  }
}
