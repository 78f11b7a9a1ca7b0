/** nn_trie_match as written, with the memory that follows the message, and exactly when its
    answer is the one promised: some live subscription is a prefix of the message. */
module TrieMatch {
  import opened Common
  import opened TrieNode
  import opened TrieSubscribe

  /** What the bytes at and after a pointer read as. */
  type Memory = nat -> byte

  /** nn_node_check_prefix accepts the whole prefix. A negative `size` is a `size_t` that was
      decremented below zero: it no longer stops anything. */
  predicate PrefixAt(p: Bytes, mem: Memory, pos: nat, size: int) {
    && (size < 0 || |p| <= size)
    && forall i | 0 <= i < |p| :: mem(pos + i) == p[i]
  }

  lemma {:induction false} ChildSmaller(n: Node, c: byte)
    ensures Child(n, c).Some? ==> Child(n, c).value < n
  {}

  /** nn_trie_match, from node `n` on. */
  predicate MatchNode(n: Node, mem: Memory, pos: nat, size: int)
    decreases n
  {
    && PrefixAt(n.prefix, mem, pos, size)
    && (n.refcount > 0 ||
        var ch := Child(n, mem(pos + |n.prefix|));
        ChildSmaller(n, mem(pos + |n.prefix|));
        ch.Some? && MatchNode(ch.value, mem, pos + |n.prefix| + 1, size - |n.prefix| - 1))
  }

  predicate Match(t: Option<Node>, mem: Memory, pos: nat, size: int) {
    t.Some? && MatchNode(t.value, mem, pos, size)
  }

  ghost predicate Holds(mem: Memory, pos: nat, data: Bytes) {
    forall i | 0 <= i < |data| :: mem(pos + i) == data[i]
  }

  /** What the documentation promises. */
  ghost predicate LivePrefix(t: Option<Node>, data: Bytes) {
    exists u :: CountOpt(t, u) > 0 && u <= data
  }

  /** The walk uses up the whole message at a node that is not a subscription and reads on. */
  predicate Overreads(t: Option<Node>, data: Bytes)
    decreases |data|
  {
    && t.Some? && t.value.prefix <= data && t.value.refcount == 0
    && (|data| == |t.value.prefix| ||
        Overreads(Child(t.value, data[|t.value.prefix|]), data[|t.value.prefix| + 1..]))
  }

  lemma HoldsTail(mem: Memory, pos: nat, data: Bytes, k: nat)
    requires Holds(mem, pos, data) && k <= |data|
    ensures Holds(mem, pos + k, data[k..])
  {
    forall i | 0 <= i < |data[k..]| ensures mem(pos + k + i) == data[k..][i] {
      assert mem(pos + (k + i)) == data[k + i];
    }
  }

  lemma HoldsPrefix(p: Bytes, mem: Memory, pos: nat, data: Bytes)
    requires Holds(mem, pos, data) && p <= data
    ensures PrefixAt(p, mem, pos, |data|) && PrefixAt(p, mem, pos, -1)
  {
    forall i | 0 <= i < |p| ensures mem(pos + i) == p[i] { assert p[i] == data[i]; }
  }

  /** A live string that lies in memory is found once the size no longer counts. */
  lemma {:induction false} FoundBeyond(t: Option<Node>, u: Bytes, mem: Memory, pos: nat, size: int)
    requires CountOpt(t, u) > 0 && Holds(mem, pos, u) && (size < 0 || |u| <= size)
    ensures Match(t, mem, pos, size)
    decreases |u|
  {
    var n := t.value;
    var k := |n.prefix|;
    HoldsPrefix(n.prefix, mem, pos, u);
    if n.refcount == 0 {
      HoldsTail(mem, pos, u, k + 1);
      assert mem(pos + k) == u[k];
      FoundBeyond(Child(n, u[k]), u[k + 1..], mem, pos + k + 1, size - k - 1);
    }
  }

  /** Whatever is found without reading on is a live prefix. */
  lemma {:induction false} FoundWithin(t: Option<Node>, data: Bytes, mem: Memory, pos: nat) returns (u: Bytes)
    requires Holds(mem, pos, data) && Match(t, mem, pos, |data|) && !Overreads(t, data)
    ensures CountOpt(t, u) > 0 && u <= data
    decreases |data|
  {
    var n := t.value;
    var k := |n.prefix|;
    PrefixInside(n.prefix, data, mem, pos);
    if n.refcount > 0 {
      u := n.prefix;
    } else {
      var c, rest := data[k], data[k + 1..];
      assert mem(pos + k) == c;
      HoldsTail(mem, pos, data, k + 1);
      var v := FoundWithin(Child(n, c), rest, mem, pos + k + 1);
      u := n.prefix + [c] + v;
      CountBelow(n, c, v);
      LongerPrefix(n.prefix + [c], v, rest);
      assert data == n.prefix + [c] + rest;
    }
  }

  lemma PrefixInside(p: Bytes, data: Bytes, mem: Memory, pos: nat)
    requires Holds(mem, pos, data) && PrefixAt(p, mem, pos, |data|)
    ensures p <= data
  {
    forall i | 0 <= i < |p| ensures p[i] == data[i] { assert mem(pos + i) == data[i]; }
  }

  /** A walk that reads on has passed no live string. */
  lemma {:induction false} OverreadMisses(t: Option<Node>, data: Bytes, u: Bytes)
    requires Overreads(t, data) && u <= data
    ensures CountOpt(t, u) == 0
    decreases |data|
  {
    var n := t.value;
    var k := |n.prefix|;
    if n.prefix <= u && |u| > k {
      assert u[k + 1..] <= data[k + 1..];
      OverreadMisses(Child(n, data[k]), data[k + 1..], u[k + 1..]);
    }
  }

  /** A walk that reads on stands above some longer live string. */
  lemma {:induction false} OverreadExtends(t: Option<Node>, data: Bytes) returns (w: Bytes)
    requires ShapeOpt(t) && Overreads(t, data)
    ensures CountOpt(t, data + w) > 0
    decreases |data|
  {
    var n := t.value;
    var k := |n.prefix|;
    if |data| == k {
      var u := LiveBelow(n);
      w := u[k..];
      assert data + w == u;
    } else {
      ChildIndex(n, data[k]);
      w := OverreadExtends(Child(n, data[k]), data[k + 1..]);
      CountBelow(n, data[k], data[k + 1..] + w);
      assert data + w == n.prefix + [data[k]] + (data[k + 1..] + w);
    }
  }

  /** With the rest of a live string right behind the message, reading on reports a match. */
  lemma {:induction false} OverreadFinds(t: Option<Node>, data: Bytes, w: Bytes, mem: Memory, pos: nat)
    requires Overreads(t, data) && CountOpt(t, data + w) > 0 && Holds(mem, pos, data + w)
    ensures Match(t, mem, pos, |data|)
    decreases |data|
  {
    var n := t.value;
    if |data| == |n.prefix| {
      OverreadEnds(n, data + w, mem, pos);
    } else {
      var c, v := data[|n.prefix|], data[|n.prefix| + 1..];
      LongerHolds(n, data, w);
      HoldsTail(mem, pos, data + w, |n.prefix| + 1);
      OverreadFinds(Child(n, c), v, w, mem, pos + |n.prefix| + 1);
      StepMatch(n, data + w, mem, pos, |data|);
    }
  }

  lemma OverreadEnds(n: Node, u: Bytes, mem: Memory, pos: nat)
    requires n.refcount == 0 && n.prefix <= u && Count(n, u) > 0 && Holds(mem, pos, u)
    ensures MatchNode(n, mem, pos, |n.prefix|)
  {
    var k := |n.prefix|;
    HoldsTail(mem, pos, u, k + 1);
    FoundBeyond(Child(n, u[k]), u[k + 1..], mem, pos + k + 1, -1);
    StepMatch(n, u, mem, pos, k);
  }

  lemma LongerHolds(n: Node, data: Bytes, w: Bytes)
    requires n.prefix <= data && n.refcount == 0 && Count(n, data + w) > 0
    ensures var u, k := data + w, |n.prefix|;
            && n.prefix <= u && k < |u| && CountOpt(Child(n, u[k]), u[k + 1..]) > 0
            && (k < |data| ==> u[k] == data[k] && u[k + 1..] == data[k + 1..] + w)
  {}

  lemma StepMatch(n: Node, u: Bytes, mem: Memory, pos: nat, size: nat)
    requires n.prefix <= u && |n.prefix| < |u| && Holds(mem, pos, u) && |n.prefix| <= size
    requires Match(Child(n, u[|n.prefix|]), mem, pos + |n.prefix| + 1, size - |n.prefix| - 1)
    ensures MatchNode(n, mem, pos, size)
  {
    HoldsPrefix(n.prefix, mem, pos, u);
    assert mem(pos + |n.prefix|) == u[|n.prefix|];
  }

  /** The answer is the promised one whatever lies behind the message, if and only if the walk
      does not use up the message at a node that is not a subscription. */
  lemma MatchExact(t: Option<Node>, data: Bytes)
    requires ShapeOpt(t)
    ensures !Overreads(t, data) <==>
            forall mem: Memory | Holds(mem, 0, data) :: Match(t, mem, 0, |data|) <==> LivePrefix(t, data)
  {
    if Overreads(t, data) {
      var w := OverreadExtends(t, data);
      var mem: Memory := (i: nat) => if i < |data + w| then (data + w)[i] else 0;
      assert Holds(mem, 0, data + w);
      assert Holds(mem, 0, data) by {
        forall i | 0 <= i < |data| ensures mem(i) == data[i] { assert (data + w)[i] == data[i]; }
      }
      OverreadFinds(t, data, w, mem, 0);
      forall u | u <= data { OverreadMisses(t, data, u); }
    } else {
      forall mem: Memory | Holds(mem, 0, data)
        ensures Match(t, mem, 0, |data|) <==> LivePrefix(t, data)
      {
        MatchWithin(t, data, mem);
      }
    }
  }

  lemma MatchWithin(t: Option<Node>, data: Bytes, mem: Memory)
    requires Holds(mem, 0, data) && !Overreads(t, data)
    ensures Match(t, mem, 0, |data|) <==> LivePrefix(t, data)
  {
    if Match(t, mem, 0, |data|) {
      var u := FoundWithin(t, data, mem, 0);
    }
    if u :| CountOpt(t, u) > 0 && u <= data {
      forall i | 0 <= i < |u| ensures mem(i) == u[i] { assert u[i] == data[i]; }
      FoundBeyond(t, u, mem, 0, |data|);
    }
  }
}
