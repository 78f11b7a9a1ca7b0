/** Whole runs of subscribes and unsubscribes against the plain multiset of strings. */
module TrieRun {
  import opened Common
  import opened TrieNode
  import opened TrieSubscribe
  import opened TrieUnsubscribe

  datatype Op = Sub(s: Bytes) | Unsub(s: Bytes)

  /** One call on the trie: the new root and the result of the call. */
  function After(t: Option<Node>, op: Op): Outcome
    requires ShapeOpt(t)
  {
    match op
    case Sub(s) => var n := Subscribe(t, s); Done(Some(n), if Count(n, s) == 1 then 1 else 0)
    case Unsub(s) => Unsubscribe(t, s)
  }

  predicate Fails(t: Option<Node>, op: Op) {
    match op
    case Sub(s) => SubscribeLoses(t, s)
    case Unsub(s) => UnsubscribeFails(t, s)
  }

  /** The same call on the multiset. */
  function Plain(m: multiset<Bytes>, op: Op): multiset<Bytes> {
    match op
    case Sub(s) => m + multiset{s}
    case Unsub(s) => m - multiset{s}
  }

  /** The call makes the string appear or disappear. */
  predicate Turns(m: multiset<Bytes>, op: Op) {
    match op
    case Sub(s) => m[s] == 0
    case Unsub(s) => m[s] == 1
  }

  /** The trie is well-shaped and stores exactly `m`. */
  ghost predicate Stores(t: Option<Node>, m: multiset<Bytes>) {
    ShapeOpt(t) && forall u :: CountOpt(t, u) == m[u]
  }

  /** Throughout the run the trie stores what the multiset holds, no call crashes, and each call
      returns 1 exactly if its string appears or disappears. */
  ghost predicate Faithful(t: Option<Node>, m: multiset<Bytes>, ops: seq<Op>)
    decreases |ops|
  {
    && Stores(t, m)
    && (ops != [] ==>
        var out := After(t, ops[0]);
        && out.Done?
        && (out.rc == 1 <==> Turns(m, ops[0]))
        && Faithful(out.node, Plain(m, ops[0]), ops[1..]))
  }

  /** A call that does not go wrong leaves a well-shaped trie. */
  lemma SafeStep(t: Option<Node>, op: Op)
    requires ShapeOpt(t) && !Fails(t, op)
    ensures After(t, op).Done? && ShapeOpt(After(t, op).node)
  {
    match op {
      case Sub(s) => SubscribeExact(t, s);
      case Unsub(s) => UnsubscribeExact(t, s);
    }
  }

  /** No call of the run meets the condition under which it goes wrong. */
  ghost predicate Careful(t: Option<Node>, ops: seq<Op>)
    requires ShapeOpt(t)
    decreases |ops|
  {
    ops != [] ==> !Fails(t, ops[0]) && (SafeStep(t, ops[0]); Careful(After(t, ops[0]).node, ops[1..]))
  }

  lemma StepExact(t: Option<Node>, m: multiset<Bytes>, op: Op)
    requires Stores(t, m)
    ensures !Fails(t, op) <==>
            var out := After(t, op);
            && out.Done?
            && (out.rc == 1 <==> Turns(m, op))
            && Stores(out.node, Plain(m, op))
  {
    match op {
      case Sub(s) => SubStep(t, m, s);
      case Unsub(s) => UnsubStep(t, m, s);
    }
  }

  lemma SubStep(t: Option<Node>, m: multiset<Bytes>, s: Bytes)
    requires Stores(t, m)
    ensures !SubscribeLoses(t, s) <==> Stores(Some(Subscribe(t, s)), m + multiset{s})
    ensures Count(Subscribe(t, s), s) == 1 <==> m[s] == 0
  {
    SubscribeExact(t, s);
    var n := Subscribe(t, s);
    if Adds(t, s, n) {
      forall u ensures CountOpt(Some(n), u) == (m + multiset{s})[u] { assert CountOpt(t, u) == m[u]; }
    }
    if Stores(Some(n), m + multiset{s}) {
      forall u ensures Count(n, u) == CountOpt(t, u) + if u == s then 1 else 0 {
        assert CountOpt(Some(n), u) == (m + multiset{s})[u];
      }
    }
  }

  lemma UnsubStep(t: Option<Node>, m: multiset<Bytes>, s: Bytes)
    requires Stores(t, m)
    ensures !UnsubscribeFails(t, s) <==>
            var out := Unsubscribe(t, s);
            out.Done? && (out.rc == 1 <==> m[s] == 1) && Stores(out.node, m - multiset{s})
  {
    UnsubscribeExact(t, s);
    var out := Unsubscribe(t, s);
    if out.Done? && TakesAway(t, s, out.node) {
      forall u ensures CountOpt(out.node, u) == (m - multiset{s})[u] { assert CountOpt(t, u) == m[u]; }
    }
    if out.Done? && Stores(out.node, m - multiset{s}) {
      forall u ensures CountOpt(out.node, u) ==
        if u == s && CountOpt(t, u) > 0 then CountOpt(t, u) - 1 else CountOpt(t, u)
      {
        assert CountOpt(out.node, u) == (m - multiset{s})[u];
      }
    }
  }

  /** A run agrees with the multiset at every step if and only if no call goes wrong. */
  lemma {:induction false} RunExact(t: Option<Node>, m: multiset<Bytes>, ops: seq<Op>)
    requires Stores(t, m)
    ensures Faithful(t, m, ops) <==> Careful(t, ops)
    decreases |ops|
  {
    if ops != [] {
      StepExact(t, m, ops[0]);
      var out := After(t, ops[0]);
      if out.Done? && Stores(out.node, Plain(m, ops[0])) {
        RunExact(out.node, Plain(m, ops[0]), ops[1..]);
      }
    }
  }

  lemma EmptyStores()
    ensures Stores(None, multiset{})
  {}

  /** From a new trie on. */
  lemma FreshRunExact(ops: seq<Op>)
    ensures Faithful(None, multiset{}, ops) <==> Careful(None, ops)
  {
    EmptyStores();
    RunExact(None, multiset{}, ops);
  }

  /** A condition on the multiset alone: a string is only subscribed or unsubscribed while no
      proper prefix of it is live, only live strings are unsubscribed, and no counter is full. */
  ghost predicate PrefixFree(m: multiset<Bytes>, ops: seq<Op>)
    decreases |ops|
  {
    ops != [] ==>
      && (forall u | u in m :: !(u < ops[0].s))
      && (ops[0].Unsub? ==> ops[0].s in m)
      && (ops[0].Sub? ==> m[ops[0].s] < TWO_32 - 1)
      && PrefixFree(Plain(m, ops[0]), ops[1..])
  }

  lemma LossStored(t: Option<Node>, m: multiset<Bytes>, s: Bytes) returns (u: Bytes)
    requires Stores(t, m) && SubscribeLoses(t, s)
    ensures u in m && u <= s && (u == s ==> m[s] == TWO_32 - 1)
  {
    u := SubscribeLoss(t, s);
    assert CountOpt(t, u) == m[u] && CountOpt(t, s) == m[s];
  }

  lemma NarrowLossStored(t: Option<Node>, m: multiset<Bytes>, s: Bytes) returns (u: Bytes)
    requires Stores(t, m) && Hits(t, s) && NarrowsLive(t, s)
    ensures u in m && u < s
  {
    u := NarrowLoss(t, s);
    assert CountOpt(t, u) == m[u];
  }

  lemma PrefixFreeStep(t: Option<Node>, m: multiset<Bytes>, op: Op)
    requires Stores(t, m)
    requires forall u | u in m :: !(u < op.s)
    requires op.Unsub? ==> op.s in m
    requires op.Sub? ==> m[op.s] < TWO_32 - 1
    ensures !Fails(t, op)
  {
    if op.Sub? {
      if SubscribeLoses(t, op.s) {
        var u := LossStored(t, m, op.s);
      }
    } else {
      UnsubscribeLive(t, op.s);
      EndCount(t, op.s);
      if NarrowsLive(t, op.s) {
        var u := NarrowLossStored(t, m, op.s);
      }
    }
  }

  /** Whatever the trie looks like inside, such a run is faithful. */
  lemma {:induction false} PrefixFreeRuns(t: Option<Node>, m: multiset<Bytes>, ops: seq<Op>)
    requires Stores(t, m) && PrefixFree(m, ops)
    ensures Faithful(t, m, ops)
    decreases |ops|
  {
    if ops != [] {
      PrefixFreeStep(t, m, ops[0]);
      StepExact(t, m, ops[0]);
      PrefixFreeRuns(After(t, ops[0]).node, Plain(m, ops[0]), ops[1..]);
    }
  }

  /** A subscribed node with a full sparse child array: "a", and "a" followed by each of 1 to 8. */
  function FullNode(): Node {
    Node(1, [97], Sparse(seq(8, i requires 0 <= i < 8 => i + 1)), seq(8, _ => Some(Node(1, [], Sparse([]), []))))
  }

  /** One more subscription below it makes the trie forget "a". */
  lemma WideningForgets()
    ensures Shape(FullNode()) && Count(FullNode(), [97]) == 1
    ensures SubscribeLoses(Some(FullNode()), [97, 9])
    ensures Count(Subscribe(Some(FullNode()), [97, 9]), [97]) == 0
  {
    var n := FullNode();
    assert Shape(Node(1, [], Sparse([]), []));
    assert Child(n, 9).None?;
    assert !Descends(n, [97, 9]);
    StopLosesHere(n, [97, 9]);
  }

  function Leaf(): Node {
    Node(1, [], Sparse([]), [])
  }

  lemma {:induction false} AllPresent(slots: seq<Option<Node>>)
    requires forall i | 0 <= i < |slots| :: slots[i].Some?
    ensures Present(slots) == |slots|
  {
    if slots != [] { AllPresent(slots[..|slots| - 1]); }
  }

  /** "a" is live, and so are nine strings one character longer. */
  function WideNode(): Node {
    Node(1, [97], Dense(1, 9, 9), seq(9, _ => Some(Leaf())))
  }

  /** Unsubscribing one of the nine makes the trie forget "a". */
  lemma NarrowingForgets()
    ensures Shape(WideNode()) && Count(WideNode(), [97]) == 1 && Count(WideNode(), [97, 9]) == 1
    ensures Unsubscribe(Some(WideNode()), [97, 9]).Done?
    ensures CountOpt(Unsubscribe(Some(WideNode()), [97, 9]).node, [97]) == 0
  {
    var n, t, s := WideNode(), Some(WideNode()), [97, 9];
    AllPresent(n.slots);
    assert Shape(Leaf());
    assert Index(n, 9) == Some(8) && Child(n, 9) == Some(Leaf());
    assert s[|n.prefix| + 1..] == [];
    assert Below(t, s) && Vanishes(Child(n, 9), []) && NarrowsLive(t, s);
    assert EndOf(t, s) == EndOf(Child(n, 9), []) == At(1, true);
    var u := NarrowLoss(t, s);
    assert u == [] || u == [97];
  }

  /** On an empty trie, unsubscribing anything but the empty string reads a NULL pointer. */
  lemma UnsubscribeReadsNull(s: Bytes)
    requires s != []
    ensures Unsubscribe(None, s) == Crash && UnsubscribeFails(None, s)
  {}

  /** Ten strings below "a", with a gap between them. */
  function GapNode(): Node {
    Node(1, [97], Dense(1, 11, 10), seq(11, i requires 0 <= i < 11 => if i == 5 then None else Some(Leaf())))
  }

  lemma GapShape()
    ensures Shape(GapNode()) && GapNode().slots[5].None? && Present(GapNode().slots) == 10
  {
    var slots := GapNode().slots;
    assert slots[..6] == slots[..5] + [None] && slots[..6][..5] == slots[..5] && slots == slots[..6] + slots[6..];
    AllPresent(slots[..5]);
    AllPresent(slots[6..]);
    PresentSplit(slots[..6], slots[6..]);
    assert Shape(Leaf());
  }

  /** Unsubscribing the string in the gap counts as a removal: it returns 1, and the number of children
      is wrong from then on. */
  lemma UnsubscribeGapBreaks()
    ensures Shape(GapNode()) && Count(GapNode(), [97, 6]) == 0
    ensures var out := Unsubscribe(Some(GapNode()), [97, 6]);
            out.Done? && out.rc == 1 && !ShapeOpt(out.node)
  {
    var n, s := GapNode(), [97, 6];
    GapShape();
    assert Index(n, 6) == Some(5) && Child(n, 6).None?;
    assert s[|n.prefix| + 1..] == [];
    assert n.slots[5 := None] == n.slots;
    assert RemoveSlot(n, 6) == Done(Some(n.(kids := Dense(1, 11, 9))), 1);
  }

  /** Unsubscribing the empty string, which is not live, takes "ABC" away. */
  lemma UnsubscribeTakesAnother()
    ensures var n := Node(1, [65, 66, 67], Sparse([]), []);
            Shape(n) && Count(n, []) == 0 && Unsubscribe(Some(n), []) == Done(None, 1)
  {}
}
