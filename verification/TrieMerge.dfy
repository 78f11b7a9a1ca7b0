/** How many nodes a trie has: unsubscribing leaves no two nodes that would fit into one, and exactly
    when subscribing does. */
module TrieMerge {
  import opened Common
  import opened TrieNode
  import opened TrieSubscribe
  import opened TrieUnsubscribe
  import opened TrieRun

  /** The node and what is below its first `k` slots. */
  function NodesTo(n: Node, k: nat): nat
    requires k <= |n.slots|
    decreases n, k
  {
    if k == 0 then 1
    else NodesTo(n, k - 1) + match n.slots[k - 1] { case None => 0 case Some(ch) => NodesTo(ch, |ch.slots|) }
  }

  function Nodes(n: Node): nat {
    NodesTo(n, |n.slots|)
  }

  lemma {:induction false} NodesSame(n: Node, m: Node, k: nat)
    requires n.slots == m.slots && k <= |n.slots|
    ensures NodesTo(n, k) == NodesTo(m, k)
  {
    if k > 0 { NodesSame(n, m, k - 1); }
  }

  /** Nothing is subscribed at the node, and with its only child it makes a prefix of at most ten bytes
      if the child's own prefix has `k`. */
  predicate Fits(n: Node, k: nat) {
    n.refcount == 0 && n.kids.Sparse? && |n.slots| == 1 && |n.prefix| + 1 + k <= PREFIX_MAX
  }

  /** The node and its only child would fit into one. */
  predicate Mergeable(n: Node) {
    |n.slots| == 1 && n.slots[0].Some? && Fits(n, |n.slots[0].value.prefix|)
  }

  ghost predicate AllMerged(slots: seq<Option<Node>>) {
    forall i | 0 <= i < |slots| :: slots[i].Some? ==> Merged(slots[i].value)
  }

  /** No node of the tree can be merged with its child. */
  ghost predicate Merged(n: Node)
    decreases n
  {
    !Mergeable(n) && forall i | 0 <= i < |n.slots| :: n.slots[i].Some? ==> Merged(n.slots[i].value)
  }

  ghost predicate MergedOpt(t: Option<Node>) {
    t.Some? ==> Merged(t.value)
  }

  lemma MergedParts(n: Node)
    ensures Merged(n) <==> !Mergeable(n) && AllMerged(n.slots)
  {}

  lemma AllMergedFrom(slots: seq<Option<Node>>, from: seq<Option<Node>>, x: Option<Node>)
    requires AllMerged(from) && MergedOpt(x)
    requires forall j | 0 <= j < |slots| :: slots[j].None? || slots[j] == x || slots[j] in from
    ensures AllMerged(slots)
  {}

  /** A compaction frees one node if the node can be merged, and none otherwise. */
  lemma CompactNodes(n: Node)
    requires Shape(n)
    ensures Nodes(Compact(n)) == Nodes(n) - if Mergeable(n) then 1 else 0
  {
    if Mergeable(n) {
      var ch := n.slots[0].value;
      NodesSame(ch, Compact(n), |ch.slots|);
      assert NodesTo(n, 0) == 1;
    }
  }

  /** What it leaves cannot be merged again, unless that was already so of the child. */
  lemma CompactMerged(n: Node)
    requires LocalShape(n)
    ensures |Compact(n).prefix| >= |n.prefix|
    ensures Mergeable(Compact(n)) ==> Mergeable(n) && Mergeable(n.slots[0].value)
    ensures AllMerged(n.slots) ==> Merged(Compact(n))
  {
    var m := Compact(n);
    if Mergeable(n) { assert m.slots == n.slots[0].value.slots; }
    MergedParts(m);
  }

  lemma FoundMerged(t: Option<Node>)
    requires ShapeOpt(t) && MergedOpt(t)
    ensures Found(t).Done? && MergedOpt(Found(t).node)
    ensures Found(t).node.Some? ==> t.Some? && |Found(t).node.value.prefix| >= |t.value.prefix|
  {
    if t.Some? && t.value.refcount > 0 {
      var n := t.value;
      MergedParts(n);
      if n.refcount > 1 {
        MergedParts(n.(refcount := n.refcount - 1));
      } else if n.slots != [] {
        CompactMerged(n.(refcount := 0));
      }
    }
  }

  lemma RemoveMerged(n: Node, c: byte)
    requires Shape(n) && Merged(n) && Index(n, c).Some? && RemoveSlot(n, c).Done?
    ensures MergedOpt(RemoveSlot(n, c).node)
    ensures RemoveSlot(n, c).node.Some? ==> |RemoveSlot(n, c).node.value.prefix| >= |n.prefix|
  {
    MergedParts(n);
    if n.kids.Sparse? {
      var m := CutSparse(n, c);
      CutFinds(n.kids.chars, Index(n, c).value, c);
      AllMergedFrom(m.slots, n.slots, None);
      if m.slots != [] || n.refcount > 0 { CompactMerged(m); }
    } else if n.kids.nbr > SPARSE_MAX + 1 {
      var m := ThinDense(n, c);
      ThinFrom(n, c);
      AllMergedFrom(m.slots, n.slots, None);
      MergedParts(m);
    } else {
      NarrowMerged(n, c);
    }
  }

  lemma NarrowMerged(n: Node, c: byte)
    requires LocalShape(n) && AllMerged(n.slots) && n.kids.Dense? && Index(n, c).Some?
    requires |NarrowDense(n, c).slots| == SPARSE_MAX
    ensures Merged(NarrowDense(n, c))
  {
    var m, slots := NarrowDense(n, c), n.slots[c - n.kids.min := None];
    GatherRange(slots, n.kids.min);
    AllMergedFrom(slots, n.slots, None);
    AllMergedFrom(m.slots, slots, None);
    MergedParts(m);
  }

  /** A child takes the place of another one. The node can be merged with it only if it is shorter. */
  lemma SetMerged(n: Node, c: byte, x: Option<Node>)
    requires Merged(n) && Index(n, c).Some? && Index(n, c).value < |n.slots| && MergedOpt(x)
    requires x.Some? ==> Child(n, c).Some? && |x.value.prefix| >= |Child(n, c).value.prefix|
    ensures Merged(SetSlot(n, c, x))
  {
    var m := SetSlot(n, c, x);
    MergedParts(n);
    AllMergedFrom(m.slots, n.slots, x);
    MergedParts(m);
  }

  /** No unsubscribe leaves a node that can be merged, not even one that goes wrong. */
  lemma {:induction false} UnsubscribeMerged(t: Option<Node>, s: Bytes)
    requires ShapeOpt(t) && MergedOpt(t) && Unsubscribe(t, s).Done?
    ensures MergedOpt(Unsubscribe(t, s).node)
    ensures Unsubscribe(t, s).node.Some? ==> t.Some? && |Unsubscribe(t, s).node.value.prefix| >= |t.value.prefix|
    decreases |s|
  {
    if !Below(t, s) {
      FoundMerged(t);
    } else {
      var n, c, v := StepDown(t, s);
      MergedParts(n);
      UnsubscribeMerged(Child(n, c), v);
      var sub := Unsubscribe(Child(n, c), v);
      if sub.rc == 0 || sub.node.Some? { SetMerged(n, c, sub.node); } else { RemoveMerged(n, c); }
    }
  }

  lemma {:induction false} FreshMerged(s: Bytes)
    ensures Merged(Fresh(s))
  {
    if |s| > PREFIX_MAX { FreshMerged(s[PREFIX_MAX + 1..]); }
  }

  /** The subscribe leaves a node that can be merged: it cuts the prefix of an unused node's only child,
      and the first part would fit, or the counter of a node overflows. */
  predicate Strands(t: Option<Node>, s: Bytes)
    decreases |s|
  {
    t.Some? &&
    var n := t.value;
    if Descends(n, s) then
      var ch, v := Child(n, s[|n.prefix|]).value, s[|n.prefix| + 1..];
      Strands(Some(ch), v) || (!(ch.prefix <= v) && Fits(n, CommonLen(ch.prefix, v)))
    else s == n.prefix && n.refcount == TWO_32 - 1 && Mergeable(n.(refcount := 0))
  }

  lemma StopMerged(n: Node, s: Bytes)
    requires Shape(n) && Merged(n) && !Descends(n, s)
    ensures AllMerged(Stop(n, s).0.slots)
    ensures |Stop(n, s).0.prefix| == CommonLen(n.prefix, s)
  {
    MergedParts(n);
    var pos := CommonLen(n.prefix, s);
    if pos < |n.prefix| {
      var ch := n.(prefix := n.prefix[pos + 1..]);
      ChangePrefix(n, n.prefix[pos + 1..]);
      CompactMerged(ch);
      assert Split(n, pos).slots == [Some(Compact(ch))];
    }
  }

  lemma EnterMerged(n: Node, rest: Bytes)
    requires Shape(n) && AllMerged(n.slots) && (rest == [] || Child(n, rest[0]).None?)
    ensures |Enter(n, rest).prefix| == |n.prefix|
    ensures Merged(Enter(n, rest)) <==> !(rest == [] && n.refcount == TWO_32 - 1 && Mergeable(n.(refcount := 0)))
  {
    var r := Enter(n, rest);
    if rest != [] {
      var c, x := rest[0], Fresh(rest[1..]);
      FreshMerged(rest[1..]);
      BranchMerged(n, c, x);
    }
    MergedParts(r);
  }

  lemma BranchMerged(n: Node, c: byte, x: Node)
    requires Shape(n) && AllMerged(n.slots) && Child(n, c).None? && Merged(x)
    ensures var r := SetSlot(AddSlot(n, c), c, Some(x));
            r.prefix == n.prefix && AllMerged(r.slots) && !Mergeable(r)
  {
    if n.kids.Dense? { GrowDenseShape(n, c, x); }
    else if |n.kids.chars| < SPARSE_MAX { GrowSparseShape(n, c, x); }
    else { WidenShape(n, c, x); }
    AllMergedFrom(SetSlot(AddSlot(n, c), c, Some(x)).slots, n.slots, Some(x));
  }

  lemma StopSubscribes(n: Node, s: Bytes)
    requires Shape(n) && Merged(n) && !Descends(n, s)
    ensures Merged(Subscribe(Some(n), s)) <==> !Strands(Some(n), s)
    ensures |Subscribe(Some(n), s).prefix| == CommonLen(n.prefix, s)
  {
    var (m, rest) := Stop(n, s);
    StopMerged(n, s);
    EnterMerged(m, rest);
  }

  /** The new child is shorter than the one it replaces only if that was cut. */
  lemma BelowMerged(n: Node, c: byte, v: Bytes, x: Node)
    requires Shape(n) && Merged(n) && Child(n, c).Some?
    requires |x.prefix| == CommonLen(Child(n, c).value.prefix, v)
    ensures var ch := Child(n, c).value;
            Merged(SetSlot(n, c, Some(x))) <==>
              Merged(x) && !(!(ch.prefix <= v) && Fits(n, CommonLen(ch.prefix, v)))
  {
    ChildIndex(n, c);
    var m, i := SetSlot(n, c, Some(x)), Index(n, c).value;
    MergedParts(n);
    MergedParts(m);
    assert m.slots[i] == Some(x);
    if Merged(x) { AllMergedFrom(m.slots, n.slots, Some(x)); }
  }

  /** A subscribe leaves no node that can be merged if and only if it does not cut one off like this. */
  lemma {:induction false} SubscribeMerged(t: Option<Node>, s: Bytes)
    requires ShapeOpt(t) && MergedOpt(t)
    ensures Merged(Subscribe(t, s)) <==> !Strands(t, s)
    ensures t.Some? ==> |Subscribe(t, s).prefix| == CommonLen(t.value.prefix, s)
    decreases |s|
  {
    if t.None? {
      FreshMerged(s);
    } else if Descends(t.value, s) {
      var n, c, v := t.value, s[|t.value.prefix|], s[|t.value.prefix| + 1..];
      ChildIndex(n, c);
      MergedParts(n);
      SubscribeMerged(Child(n, c), v);
      BelowMerged(n, c, v, Subscribe(Child(n, c), v));
    } else {
      StopSubscribes(t.value, s);
    }
  }

  /** At every point of the run, no node can be merged. */
  ghost predicate StaysMerged(t: Option<Node>, ops: seq<Op>)
    requires ShapeOpt(t) && Careful(t, ops)
    decreases |ops|
  {
    && MergedOpt(t)
    && (ops != [] ==> (SafeStep(t, ops[0]); StaysMerged(After(t, ops[0]).node, ops[1..])))
  }

  ghost predicate NeverStrands(t: Option<Node>, ops: seq<Op>)
    requires ShapeOpt(t) && Careful(t, ops)
    decreases |ops|
  {
    ops != [] ==>
      && !(ops[0].Sub? && Strands(t, ops[0].s))
      && (SafeStep(t, ops[0]); NeverStrands(After(t, ops[0]).node, ops[1..]))
  }

  lemma {:induction false} RunMerged(t: Option<Node>, ops: seq<Op>)
    requires ShapeOpt(t) && MergedOpt(t) && Careful(t, ops)
    ensures StaysMerged(t, ops) <==> NeverStrands(t, ops)
    decreases |ops|
  {
    if ops != [] {
      SafeStep(t, ops[0]);
      match ops[0] {
        case Sub(s) => SubscribeMerged(t, s);
        case Unsub(s) => UnsubscribeMerged(t, s);
      }
      var next := After(t, ops[0]).node;
      if MergedOpt(next) { RunMerged(next, ops[1..]); }
    }
  }

  /** A node of a subscription without children. */
  function Tip(prefix: Bytes): Node {
    Node(1, prefix, Sparse([]), [])
  }

  /** "ab" and ten more bytes, in two nodes that do not fit into one. */
  function Pair(ten: Bytes): Node {
    Node(0, [97], Sparse([98]), [Some(Tip(ten))])
  }

  /** The same beside "ad". */
  function Fork(ten: Bytes): Node {
    Node(0, [97], Sparse([100, 98]), [Some(Tip([])), Some(Tip(ten))])
  }

  lemma PairShape(ten: Bytes)
    requires |ten| == PREFIX_MAX
    ensures Shape(Tip([97, 100])) && Shape(Pair(ten)) && Shape(Fork(ten)) && Merged(Pair(ten))
  {
    assert Shape(Tip(ten)) && Merged(Tip(ten)) && Shape(Tip([]));
    assert Pair(ten).slots == [Some(Tip(ten))];
  }

  /** Two subscribes and an unsubscribe lead to the pair. */
  lemma PairReached(ten: Bytes)
    requires |ten| == PREFIX_MAX
    ensures Subscribe(None, [97, 100]) == Tip([97, 100]) && Shape(Tip([97, 100]))
    ensures Subscribe(Some(Tip([97, 100])), [97, 98] + ten) == Fork(ten) && Shape(Fork(ten))
    ensures Unsubscribe(Some(Fork(ten)), [97, 100]) == Done(Some(Pair(ten)), 1)
  {
    PairShape(ten);
    Forks(ten, [97, 98] + ten);
    Unforks(ten);
  }

  lemma Forks(ten: Bytes, s: Bytes)
    requires |ten| == PREFIX_MAX && s == [97, 98] + ten && Shape(Tip([97, 100]))
    ensures Subscribe(Some(Tip([97, 100])), s) == Fork(ten)
  {
    var one := Tip([97, 100]);
    assert s[0] == 97 && s[1] == 98;
    assert CommonLen(one.prefix, s) == 1;
    assert one.prefix[2..] == [];
    var m := Split(one, 1);
    assert m == Node(0, [97], Sparse([100]), [Some(Tip([]))]);
    assert s[1..][0] == 98 && s[1..][1..] == ten;
    assert Child(m, 98).None?;
    var a := AddSlot(m, 98);
    assert [100] + [98] == [100, 98] && m.slots + [None] == [Some(Tip([])), None];
    assert FindChar([100, 98], 98) == 1;
    assert SetSlot(a, 98, Some(Tip(ten))).slots == [Some(Tip([])), Some(Tip(ten))];
  }

  lemma Unforks(ten: Bytes)
    requires |ten| == PREFIX_MAX && Shape(Fork(ten))
    ensures Unsubscribe(Some(Fork(ten)), [97, 100]) == Done(Some(Pair(ten)), 1)
  {
    var n := Fork(ten);
    assert Index(n, 100) == Some(0) && Child(n, 100) == Some(Tip([]));
    assert [97, 100][|n.prefix| + 1..] == [];
    assert Cut(n.kids.chars, 0) == [98] && Cut(n.slots, 0) == [Some(Tip(ten))];
    assert CutSparse(n, 100) == Pair(ten);
  }

  lemma CommonUpTo(p: Bytes, k: nat, d: byte)
    requires k < |p| && p[k] != d
    ensures CommonLen(p, p[..k] + [d]) == k && !(p <= p[..k] + [d])
  {
    var s := p[..k] + [d];
    assert s[k] == d && forall j | 0 <= j < k :: p[j] == s[j];
  }

  /** A subscribe that parts from the ten bytes at one of the first nine then cuts the second node, and
      the first two of three nodes would fit into one. */
  lemma PairStrands(ten: Bytes, k: nat, d: byte)
    requires |ten| == PREFIX_MAX && k < 9 && ten[k] != d
    ensures Shape(Pair(ten)) && Merged(Pair(ten))
    ensures !Merged(Subscribe(Some(Pair(ten)), [97, 98] + ten[..k] + [d]))
  {
    var n, ch, s := Pair(ten), Tip(ten), [97, 98] + ten[..k] + [d];
    PairShape(ten);
    assert n.slots == [Some(ch)] && Child(n, 98) == Some(ch);
    assert s[0] == 97 && s[1] == 98 && s[2..] == ten[..k] + [d];
    CommonUpTo(ten, k, d);
    assert Strands(Some(n), s);
    SubscribeMerged(Some(n), s);
  }
}
