/** nn_trie_unsubscribe as a function from trie to trie, and exactly when it takes one
    subscription away and changes nothing else. */
module TrieUnsubscribe {
  import opened Common
  import opened TrieNode
  import opened TrieSubscribe

  const EINVAL := 22

  /** `Crash` is a NULL pointer read or a failed assertion. */
  datatype Outcome = Crash | Done(node: Option<Node>, rc: int)

  /** The label `found`. */
  function Found(t: Option<Node>): Outcome
    requires ShapeOpt(t)
  {
    if t.None? || t.value.refcount == 0 then Done(t, -EINVAL)
    else if t.value.refcount > 1 then Done(Some(t.value.(refcount := t.value.refcount - 1)), 0)
    else if t.value.slots == [] then Done(None, 1)
    else Done(Some(Compact(t.value.(refcount := 0))), 1)
  }

  /** First non-NULL slot, searching upwards. */
  function FirstSome(slots: seq<Option<Node>>): (i: nat)
    ensures i <= |slots|
    ensures i < |slots| ==> slots[i].Some?
    ensures forall j | 0 <= j < i :: slots[j].None?
  {
    if slots == [] || slots[0].Some? then 0 else
    var r := FirstSome(slots[1..]);
    assert forall j | 0 < j < 1 + r :: slots[j] == slots[1..][j - 1];
    1 + r
  }

  /** Last non-NULL slot, searching downwards; the search gives up at slot 0. */
  function LastSome(slots: seq<Option<Node>>): (i: nat)
    requires slots != []
    ensures i < |slots|
    ensures i > 0 ==> slots[i].Some?
    ensures forall j | i < j < |slots| :: slots[j].None?
  {
    var k := |slots| - 1;
    if k == 0 || slots[k].Some? then k else LastSome(slots[..k])
  }

  /** The children of a dense node as a sparse node holds them. */
  function Gather(slots: seq<Option<Node>>, min: nat): (r: (Bytes, seq<Option<Node>>))
    requires min + |slots| <= 256
    ensures |r.0| == |r.1| == Present(slots)
  {
    if slots == [] then ([], []) else
    var k := |slots| - 1;
    var (cs, xs) := Gather(slots[..k], min);
    if slots[k].Some? then (cs + [min + k], xs + [slots[k]]) else (cs, xs)
  }

  function Cut<T>(s: seq<T>, i: nat): (r: seq<T>)
    requires i < |s|
    ensures |r| == |s| - 1
    ensures forall j | 0 <= j < |r| :: r[j] == if j < i then s[j] else s[j + 1]
  {
    s[..i] + s[i + 1..]
  }

  /** The node a sparse node becomes when it loses the child at `c`, before compaction. */
  function CutSparse(n: Node, c: byte): Node
    requires LocalShape(n) && n.kids.Sparse? && Index(n, c).Some?
  {
    var i := Index(n, c).value;
    n.(kids := Sparse(Cut(n.kids.chars, i)), slots := Cut(n.slots, i))
  }

  /** A dense array stays dense: its limits are adjusted where the removed child was at an end. */
  function ThinDense(n: Node, c: byte): Node
    requires LocalShape(n) && n.kids.Dense? && Index(n, c).Some? && n.kids.nbr > SPARSE_MAX + 1
  {
    var Dense(min, max, nbr) := n.kids;
    var slots := n.slots[c - min := None];
    if c == min then
      PresentUpdate(n.slots, c - min, None);
      PresentSome(slots);
      var k := FirstSome(slots);
      n.(kids := Dense(min + k, max, nbr - 1), slots := slots[k..])
    else if c == max then
      var k := LastSome(slots);
      n.(kids := Dense(min, min + k, nbr - 1), slots := slots[..k + 1])
    else
      n.(kids := Dense(min, max, nbr - 1), slots := slots)
  }

  /** A dense array becomes a sparse one. The refcount of the old node is not carried over. */
  function NarrowDense(n: Node, c: byte): Node
    requires LocalShape(n) && n.kids.Dense? && Index(n, c).Some?
  {
    var (cs, xs) := Gather(n.slots[c - n.kids.min := None], n.kids.min);
    Node(0, n.prefix, Sparse(cs), xs)
  }

  /** Takes the slot of `c`, whose node was just freed, out of the child array. */
  function RemoveSlot(n: Node, c: byte): Outcome
    requires LocalShape(n) && Index(n, c).Some?
  {
    if n.kids.Sparse? then
      var m := CutSparse(n, c);
      if m.slots == [] && n.refcount == 0 then Done(None, 1)
      else
        CutFinds(n.kids.chars, Index(n, c).value, c);
        Done(Some(Compact(m)), 1)
    else if n.kids.nbr > SPARSE_MAX + 1 then
      Done(Some(ThinDense(n, c)), 1)
    else if |NarrowDense(n, c).slots| != SPARSE_MAX then
      Crash
    else
      Done(Some(NarrowDense(n, c)), 1)
  }

  /** nn_node_unsubscribe. */
  function Unsubscribe(t: Option<Node>, s: Bytes): Outcome
    requires ShapeOpt(t)
    decreases |s|
  {
    if s == [] then Found(t)
    else if t.None? then Crash
    else
      var n := t.value;
      if !(n.prefix <= s) then Done(t, 0)
      else if |s| == |n.prefix| then Found(t)
      else if Index(n, s[|n.prefix|]).None? then Done(t, 0)
      else
        var c := s[|n.prefix|];
        var sub := Unsubscribe(Child(n, c), s[|n.prefix| + 1..]);
        if sub.Crash? then Crash
        else if sub.rc == 0 then Done(Some(SetSlot(n, c, sub.node)), 0)
        else if sub.node.Some? then Done(Some(SetSlot(n, c, sub.node)), 1)
        else RemoveSlot(n, c)
  }

  /** Where the walk of an unsubscribe ends. */
  datatype End =
    | NullNode                            // a NULL node with characters left
    | Gap                                 // an empty slot right at the end of the string
    | Elsewhere                           // the string leaves the trie
    | At(refcount: nat, exact: bool)      // a node; `exact` if its own string is the one given

  function EndOf(t: Option<Node>, s: Bytes): End
    decreases |s|
  {
    if s == [] then (if t.None? then Gap else At(t.value.refcount, t.value.prefix == []))
    else if t.None? then NullNode
    else if !(t.value.prefix <= s) then Elsewhere
    else if |s| == |t.value.prefix| then At(t.value.refcount, true)
    else if !Below(t, s) then Elsewhere
    else EndOf(Child(t.value, s[|t.value.prefix|]), s[|t.value.prefix| + 1..])
  }

  /** The walk goes on below the root of `t`. */
  predicate Below(t: Option<Node>, s: Bytes) {
    && t.Some? && t.value.prefix <= s && |t.value.prefix| < |s|
    && Index(t.value, s[|t.value.prefix|]).Some?
  }

  /** Removing the last subscription at the end of the walk frees the root of `t`. */
  predicate Vanishes(t: Option<Node>, s: Bytes)
    decreases |s|
  {
    if t.None? then false
    else if !Below(t, s) then t.value.refcount == 1 && t.value.slots == []
    else
      && t.value.refcount == 0 && t.value.kids.Sparse? && |t.value.slots| == 1
      && Vanishes(Child(t.value, s[|t.value.prefix|]), s[|t.value.prefix| + 1..])
  }

  /** The guard of the conversion from dense to sparse. */
  predicate Narrows(n: Node) {
    n.kids.Dense? && n.kids.nbr <= SPARSE_MAX + 1
  }

  /** Some node on the walk is itself a subscription and is converted from dense to sparse. */
  predicate NarrowsLive(t: Option<Node>, s: Bytes)
    decreases |s|
  {
    Below(t, s) &&
    var n, ch, v := t.value, Child(t.value, s[|t.value.prefix|]), s[|t.value.prefix| + 1..];
    NarrowsLive(ch, v) || (Vanishes(ch, v) && Narrows(n) && n.refcount > 0)
  }

  /** The ways an unsubscribe goes wrong. */
  predicate UnsubscribeFails(t: Option<Node>, s: Bytes) {
    match EndOf(t, s)
    case NullNode => true
    case Gap => Below(t, s)
    case Elsewhere => false
    case At(k, exact) => if k == 0 then Below(t, s) else !exact || NarrowsLive(t, s)
  }

  /** One subscription to `s` less, if there was one, no other change, and the result 1 exactly if
      it was the last one. */
  ghost predicate Removes(t: Option<Node>, s: Bytes, out: Outcome) {
    && out.Done?
    && ShapeOpt(out.node)
    && TakesAway(t, s, out.node)
    && (out.rc == 1 <==> CountOpt(t, s) == 1)
  }

  ghost predicate TakesAway(t: Option<Node>, s: Bytes, r: Option<Node>) {
    forall u :: CountOpt(r, u) == if u == s && CountOpt(t, u) > 0 then CountOpt(t, u) - 1 else CountOpt(t, u)
  }

  /** What a walk step down from `n` looks like. */
  lemma StepDown(t: Option<Node>, s: Bytes) returns (n: Node, c: byte, v: Bytes)
    requires ShapeOpt(t) && Below(t, s)
    ensures t == Some(n) && c == s[|n.prefix|] && v == s[|n.prefix| + 1..]
    ensures s == n.prefix + [c] + v && |v| < |s|
    ensures Index(n, c).Some? && Index(n, c).value < |n.slots| && Child(n, c) == n.slots[Index(n, c).value]
    ensures ShapeOpt(Child(n, c))
    ensures Count(n, s) == CountOpt(Child(n, c), v)
    ensures n.kids.Sparse? ==> Child(n, c).Some?
    ensures EndOf(t, s) == EndOf(Child(n, c), v)
  {
    n := t.value;
    c, v := s[|n.prefix|], s[|n.prefix| + 1..];
  }

  lemma {:induction false} EndCount(t: Option<Node>, s: Bytes)
    requires ShapeOpt(t)
    ensures CountOpt(t, s) ==
            match EndOf(t, s) { case At(k, exact) => if exact then k else 0 case _ => 0 }
    decreases |s|
  {
    if Below(t, s) {
      var n, c, v := StepDown(t, s);
      EndCount(Child(n, c), v);
    } else if t.Some? && t.value.prefix <= s && |t.value.prefix| < |s| {
      assert CountOpt(Child(t.value, s[|t.value.prefix|]), s[|t.value.prefix| + 1..]) == 0;
    }
  }

  lemma {:induction false} EndNull(t: Option<Node>, s: Bytes)
    requires ShapeOpt(t) && EndOf(t, s).NullNode?
    ensures Unsubscribe(t, s).Crash?
    decreases |s|
  {
    if Below(t, s) {
      var n, c, v := StepDown(t, s);
      EndNull(Child(n, c), v);
    }
  }

  lemma SetSame(n: Node, c: byte)
    ensures SetSlot(n, c, Child(n, c)) == n
  {
    var i := Index(n, c);
    if i.Some? && i.value < |n.slots| { assert n.slots[i.value := n.slots[i.value]] == n.slots; }
  }

  lemma {:induction false} EndElsewhere(t: Option<Node>, s: Bytes)
    requires ShapeOpt(t) && EndOf(t, s).Elsewhere?
    ensures Unsubscribe(t, s) == Done(t, 0)
    decreases |s|
  {
    if Below(t, s) {
      var n, c, v := StepDown(t, s);
      EndElsewhere(Child(n, c), v);
      SetSame(n, c);
    }
  }

  /** A string that is not subscribed to but has a node of its own: nothing changes, and below the
      root the caller is told that a subscription was removed. */
  lemma {:induction false} EndUnused(t: Option<Node>, s: Bytes)
    requires ShapeOpt(t) && EndOf(t, s).At? && EndOf(t, s).refcount == 0
    ensures Unsubscribe(t, s) == Done(t, if Below(t, s) then 1 else -EINVAL)
    decreases |s|
  {
    if Below(t, s) {
      var n, c, v := StepDown(t, s);
      EndUnused(Child(n, c), v);
      SetSame(n, c);
      assert Child(n, c).Some?;
    }
  }

  /** A slot that is already empty is removed once more: the child count no longer fits. */
  lemma {:induction false} EndGap(t: Option<Node>, s: Bytes)
    requires ShapeOpt(t) && EndOf(t, s).Gap? && Below(t, s)
    ensures Unsubscribe(t, s).Done? ==> Unsubscribe(t, s).rc == 1 && Unsubscribe(t, s).node.Some?
    ensures Unsubscribe(t, s).Done? ==> !ShapeOpt(Unsubscribe(t, s).node)
    decreases |s|
  {
    var n, c, v := StepDown(t, s);
    if v == [] {
      assert Child(n, c).None? && n.kids.Dense?;
      var i := Index(n, c).value;
      assert n.slots[i := None] == n.slots;
    } else {
      assert Below(Child(n, c), v);
      EndGap(Child(n, c), v);
      var x := Unsubscribe(Child(n, c), v);
      if x.Done? { assert SetSlot(n, c, x.node).slots[Index(n, c).value] == x.node; }
    }
  }

  lemma {:induction false} GatherRange(slots: seq<Option<Node>>, min: nat)
    requires min + |slots| <= 256
    ensures var (cs, xs) := Gather(slots, min);
            && (forall i | 0 <= i < |cs| :: min <= cs[i] < min + |slots|)
            && Distinct(cs)
            && (forall i | 0 <= i < |xs| :: xs[i].Some? && xs[i] in slots)
  {
    if slots != [] {
      var k := |slots| - 1;
      GatherRange(slots[..k], min);
      assert slots == slots[..k] + [slots[k]];
    }
  }

  lemma {:induction false} GatherFinds(slots: seq<Option<Node>>, min: nat, d: byte)
    requires min + |slots| <= 256
    ensures var (cs, xs) := Gather(slots, min);
            var k := FindChar(cs, d);
            if min <= d < min + |slots| && slots[d - min].Some?
            then k < |cs| && xs[k] == slots[d - min] else k == |cs|
  {
    if slots != [] {
      var k := |slots| - 1;
      GatherFinds(slots[..k], min, d);
      assert slots[..k] + [slots[k]] == slots;
      if slots[k].Some? {
        GatherRange(slots, min);
        var cs := Gather(slots, min).0;
        assert cs[..|cs| - 1] == Gather(slots[..k], min).0;
        FindCharLast(cs, d);
      }
    }
  }

  /** `m` has the children of `n` except the one at `c`. */
  ghost predicate Without(n: Node, m: Node, c: byte) {
    && m.prefix == n.prefix
    && forall d: byte :: Child(m, d) == if d == c then None else Child(n, d)
  }

  lemma WithoutCount(n: Node, m: Node, c: byte, u: Bytes)
    requires Without(n, m, c)
    ensures Count(m, u) == if Through(n, c, u) then 0 else if u == n.prefix then m.refcount else Count(n, u)
  {
    if n.prefix <= u {
      if |u| > |n.prefix| { assert Child(m, u[|n.prefix|]) == if u[|n.prefix|] == c then None else Child(n, u[|n.prefix|]); }
      else { assert u == n.prefix; }
    }
  }

  lemma CutFinds(chars: Bytes, i: nat, d: byte)
    requires i < |chars| && Distinct(chars)
    ensures Distinct(Cut(chars, i))
    ensures var k := FindChar(Cut(chars, i), d);
            if d == chars[i] then k == |chars| - 1
            else if FindChar(chars, d) < i then k == FindChar(chars, d)
            else k == FindChar(chars, d) - 1
  {
    var r := Cut(chars, i);
    var k, j := FindChar(r, d), FindChar(chars, d);
    if k < |r| { assert chars[if k < i then k else k + 1] == d; }
    if j < |chars| && j != i { assert r[if j < i then j else j - 1] == d; }
  }

  lemma CutSparseWithout(n: Node, c: byte)
    requires LocalShape(n) && n.kids.Sparse? && Index(n, c).Some?
    ensures Without(n, CutSparse(n, c), c)
  {
    forall d: byte ensures Child(CutSparse(n, c), d) == if d == c then None else Child(n, d) {
      CutFinds(n.kids.chars, Index(n, c).value, d);
    }
  }

  lemma CutSparseShape(n: Node, c: byte)
    requires Shape(n) && n.kids.Sparse? && Index(n, c).Some?
    requires n.refcount > 0 || |n.slots| > 1
    ensures Shape(CutSparse(n, c))
  {
    var m := CutSparse(n, c);
    CutFinds(n.kids.chars, Index(n, c).value, c);
    ShapeParts(n);
    AllShapeFrom(m.slots, n.slots, None);
    ShapeParts(m);
  }

  lemma ThinWithout(n: Node, c: byte)
    requires LocalShape(n) && n.kids.Dense? && Index(n, c).Some? && n.kids.nbr > SPARSE_MAX + 1
    ensures Without(n, ThinDense(n, c), c)
  {
    forall d: byte ensures Child(ThinDense(n, c), d) == if d == c then None else Child(n, d) {
      ThinChild(n, c, d);
    }
  }

  lemma ThinChild(n: Node, c: byte, d: byte)
    requires LocalShape(n) && n.kids.Dense? && Index(n, c).Some? && n.kids.nbr > SPARSE_MAX + 1
    ensures Child(ThinDense(n, c), d) == if d == c then None else Child(n, d)
  {
    var min := n.kids.min;
    var slots := n.slots[c - min := None];
    PresentUpdate(n.slots, c - min, None);
    if c == min { TrimLeft(slots); }
    assert Index(n, d).Some? ==> slots[d - min] == if d == c then None else Child(n, d);
  }

  lemma ThinShape(n: Node, c: byte)
    requires Shape(n) && n.kids.Dense? && Child(n, c).Some? && n.kids.nbr > SPARSE_MAX + 1
    ensures Shape(ThinDense(n, c))
  {
    var m := ThinDense(n, c);
    ThinLocalShape(n, c);
    ThinFrom(n, c);
    ShapeParts(n);
    AllShapeFrom(m.slots, n.slots, None);
    ShapeParts(m);
  }

  lemma ThinLocalShape(n: Node, c: byte)
    requires LocalShape(n) && n.kids.Dense? && Child(n, c).Some? && n.kids.nbr > SPARSE_MAX + 1
    ensures LocalShape(ThinDense(n, c))
  {
    var Dense(min, max, nbr) := n.kids;
    var slots := n.slots[c - min := None];
    PresentUpdate(n.slots, c - min, None);
    if c == min { TrimLeft(slots); }
    else if c == max { TrimRight(slots); }
  }

  lemma TrimLeft(slots: seq<Option<Node>>)
    requires Present(slots) > 0
    ensures FirstSome(slots) < |slots|
    ensures Present(slots[FirstSome(slots)..]) == Present(slots)
  {
    PresentSome(slots);
    var k := FirstSome(slots);
    assert slots == slots[..k] + slots[k..];
    PresentSplit(slots[..k], slots[k..]);
    PresentNone(slots[..k]);
  }

  lemma TrimRight(slots: seq<Option<Node>>)
    requires Present(slots) > 0
    ensures slots != [] && slots[LastSome(slots)].Some?
    ensures Present(slots[..LastSome(slots) + 1]) == Present(slots)
  {
    PresentSome(slots);
    var k := LastSome(slots);
    assert slots == slots[..k + 1] + slots[k + 1..];
    PresentSplit(slots[..k + 1], slots[k + 1..]);
    PresentNone(slots[k + 1..]);
  }

  lemma ThinFrom(n: Node, c: byte)
    requires LocalShape(n) && n.kids.Dense? && Index(n, c).Some? && n.kids.nbr > SPARSE_MAX + 1
    ensures forall j | 0 <= j < |ThinDense(n, c).slots| ::
              ThinDense(n, c).slots[j].None? || ThinDense(n, c).slots[j] in n.slots
  {
    var slots := n.slots[c - n.kids.min := None];
    assert forall j | 0 <= j < |slots| :: slots[j].None? || slots[j] in n.slots;
  }

  lemma NarrowWithout(n: Node, c: byte)
    requires LocalShape(n) && n.kids.Dense? && Index(n, c).Some?
    ensures Without(n, NarrowDense(n, c), c)
  {
    forall d: byte ensures Child(NarrowDense(n, c), d) == if d == c then None else Child(n, d) {
      GatherFinds(n.slots[c - n.kids.min := None], n.kids.min, d);
    }
  }

  lemma NarrowShape(n: Node, c: byte)
    requires Shape(n) && Narrows(n) && Child(n, c).Some?
    ensures Shape(NarrowDense(n, c)) && |NarrowDense(n, c).slots| == SPARSE_MAX
  {
    var m := NarrowDense(n, c);
    var slots := n.slots[c - n.kids.min := None];
    PresentUpdate(n.slots, c - n.kids.min, None);
    GatherRange(slots, n.kids.min);
    ShapeParts(n);
    AllShapeFrom(slots, n.slots, None);
    AllShapeFrom(m.slots, slots, None);
    ShapeParts(m);
  }

  /** Losing the only thing a node had frees the node. */
  predicate LastChild(n: Node) {
    n.refcount == 0 && n.kids.Sparse? && |n.slots| == 1
  }

  lemma RemoveShape(n: Node, c: byte)
    requires Shape(n) && Child(n, c).Some?
    ensures RemoveSlot(n, c).Done? && RemoveSlot(n, c).rc == 1
    ensures ShapeOpt(RemoveSlot(n, c).node)
    ensures RemoveSlot(n, c).node.None? <==> LastChild(n)
  {
    if n.kids.Sparse? {
      if !LastChild(n) {
        CutSparseShape(n, c);
        CompactShape(CutSparse(n, c));
      }
    } else if Narrows(n) {
      NarrowShape(n, c);
    } else {
      ThinShape(n, c);
    }
  }

  lemma RemoveCount(n: Node, c: byte, u: Bytes)
    requires Shape(n) && Child(n, c).Some?
    ensures RemoveSlot(n, c).Done?
    ensures CountOpt(RemoveSlot(n, c).node, u) ==
            if Through(n, c, u) || (Narrows(n) && u == n.prefix) then 0 else Count(n, u)
  {
    RemoveShape(n, c);
    if n.kids.Sparse? {
      CutSparseWithout(n, c);
      WithoutCount(n, CutSparse(n, c), c, u);
      if LastChild(n) {
        OnlyChildCount(n, c, u);
      } else {
        CutSparseShape(n, c);
        CompactKeeps(CutSparse(n, c), u);
      }
    } else if Narrows(n) {
      NarrowShape(n, c);
      NarrowWithout(n, c);
      WithoutCount(n, NarrowDense(n, c), c, u);
    } else {
      ThinWithout(n, c);
      WithoutCount(n, ThinDense(n, c), c, u);
    }
    if n.prefix <= u && |u| == |n.prefix| { assert u == n.prefix; }
  }

  lemma OnlyChildCount(n: Node, c: byte, u: Bytes)
    requires LocalShape(n) && LastChild(n) && Index(n, c).Some?
    ensures !Through(n, c, u) ==> Count(n, u) == 0
  {
    if n.prefix <= u && |u| > |n.prefix| && u[|n.prefix|] != c {
      assert n.kids.chars == [c];
      assert Child(n, u[|n.prefix|]).None?;
    }
  }

  lemma FoundShape(t: Option<Node>)
    requires ShapeOpt(t) && t.Some? && t.value.refcount > 0
    ensures Found(t).Done? && ShapeOpt(Found(t).node)
    ensures Found(t).rc == if t.value.refcount == 1 then 1 else 0
    ensures Found(t).node.None? <==> t.value.refcount == 1 && t.value.slots == []
  {
    var n := t.value;
    ShapeParts(n);
    if n.refcount > 1 {
      ShapeParts(n.(refcount := n.refcount - 1));
    } else if n.slots != [] {
      ShapeParts(n.(refcount := 0));
      CompactShape(n.(refcount := 0));
    }
  }

  lemma FoundCount(t: Option<Node>, u: Bytes)
    requires ShapeOpt(t) && t.Some? && t.value.refcount > 0
    ensures Found(t).Done?
    ensures CountOpt(Found(t).node, u) == if u == t.value.prefix then t.value.refcount - 1 else CountOpt(t, u)
  {
    var n := t.value;
    IncrementCounts(n, n.refcount - 1, u);
    ShapeParts(n);
    if n.refcount == 1 {
      if n.slots == [] {
        if n.prefix <= u && |u| > |n.prefix| { assert Child(n, u[|n.prefix|]).None?; }
        if n.prefix <= u && |u| == |n.prefix| { assert u == n.prefix; }
      } else {
        ShapeParts(n.(refcount := 0));
        CompactKeeps(n.(refcount := 0), u);
      }
    }
  }

  /** The walk ends at a node that is a subscription. */
  predicate Hits(t: Option<Node>, s: Bytes) {
    EndOf(t, s).At? && EndOf(t, s).refcount > 0
  }

  /** The string of the node where the walk ends: not always the string asked for. */
  function Target(t: Option<Node>, s: Bytes): Bytes
    requires Hits(t, s)
    decreases |s|
  {
    if Below(t, s) then
      t.value.prefix + [s[|t.value.prefix|]] +
      Target(Child(t.value, s[|t.value.prefix|]), s[|t.value.prefix| + 1..])
    else t.value.prefix
  }

  lemma {:induction false} TargetExact(t: Option<Node>, s: Bytes)
    requires Hits(t, s)
    ensures Target(t, s) == s <==> EndOf(t, s).exact
    decreases |s|
  {
    if Below(t, s) {
      var k := |t.value.prefix|;
      TargetExact(Child(t.value, s[k]), s[k + 1..]);
      var w := Target(Child(t.value, s[k]), s[k + 1..]);
      assert s == t.value.prefix + [s[k]] + s[k + 1..];
      if Target(t, s) == s { assert w == Target(t, s)[k + 1..]; }
    } else if s != [] {
      assert t.value.prefix == s;
    }
  }

  lemma {:induction false} HitShape(t: Option<Node>, s: Bytes)
    requires ShapeOpt(t) && Hits(t, s)
    ensures Unsubscribe(t, s).Done? && ShapeOpt(Unsubscribe(t, s).node)
    ensures Unsubscribe(t, s).rc == if EndOf(t, s).refcount == 1 then 1 else 0
    ensures Unsubscribe(t, s).node.None? <==> Vanishes(t, s)
    ensures Vanishes(t, s) ==> EndOf(t, s).refcount == 1
    decreases |s|
  {
    if !Below(t, s) {
      FoundShape(t);
    } else {
      var n, c, v := StepDown(t, s);
      HitShape(Child(n, c), v);
      if Vanishes(Child(n, c), v) {
        RemoveShape(n, c);
      } else {
        assert Child(n, c).Some?;
        SetSlotShape(n, c, Unsubscribe(Child(n, c), v).node.value);
      }
    }
  }

  /** The subscription that an unsubscribe finds. */
  lemma {:induction false} TargetCount(t: Option<Node>, s: Bytes)
    requires ShapeOpt(t) && Hits(t, s)
    ensures CountOpt(t, Target(t, s)) == EndOf(t, s).refcount
    decreases |s|
  {
    if !Below(t, s) {
      FoundCount(t, Target(t, s));
    } else {
      var n, c, v := StepDown(t, s);
      CountBelow(n, c, Target(Child(n, c), v));
      TargetCount(Child(n, c), v);
    }
  }

  /** Every count after an unsubscribe that found a subscription. */
  lemma {:induction false} HitCount(t: Option<Node>, s: Bytes, u: Bytes)
    requires ShapeOpt(t) && Hits(t, s)
    requires u == Target(t, s) || !NarrowsLive(t, s)
    ensures Unsubscribe(t, s).Done?
    ensures CountOpt(Unsubscribe(t, s).node, u) ==
            if u == Target(t, s) then EndOf(t, s).refcount - 1 else CountOpt(t, u)
    decreases |s|
  {
    HitShape(t, s);
    if !Below(t, s) {
      FoundCount(t, u);
    } else {
      var n, c, v := StepDown(t, s);
      var ch := Child(n, c);
      HitShape(ch, v);
      var out := Unsubscribe(ch, v);
      if Through(n, c, u) {
        ThroughIs(n, c, u, Target(ch, v));
        HitCount(ch, v, u[|n.prefix| + 1..]);
      } else {
        NotThroughIs(n, c, u, Target(ch, v));
      }
      if Vanishes(ch, v) { RemoveCount(n, c, u); } else { SetSlotCounts(n, c, out.node, u); }
    }
  }

  lemma ThroughIs(n: Node, c: byte, u: Bytes, w: Bytes)
    requires Through(n, c, u)
    ensures u == n.prefix + [c] + w <==> u[|n.prefix| + 1..] == w
  {
    assert u == n.prefix + [c] + u[|n.prefix| + 1..];
    assert (n.prefix + [c] + w)[|n.prefix| + 1..] == w;
  }

  lemma NotThroughIs(n: Node, c: byte, u: Bytes, w: Bytes)
    requires !Through(n, c, u)
    ensures u != n.prefix + [c] + w
  {}

  /** A live node that is narrowed on the way up is forgotten. */
  lemma {:induction false} NarrowLoss(t: Option<Node>, s: Bytes) returns (u: Bytes)
    requires ShapeOpt(t) && Hits(t, s) && NarrowsLive(t, s)
    ensures Unsubscribe(t, s).Done? && |u| < |Target(t, s)| && u < s
    ensures CountOpt(t, u) > 0 && CountOpt(Unsubscribe(t, s).node, u) == 0
    decreases |s|
  {
    HitShape(t, s);
    var n, c, v := StepDown(t, s);
    var ch := Child(n, c);
    HitShape(ch, v);
    if NarrowsLive(ch, v) {
      var w := NarrowLoss(ch, v);
      u := n.prefix + [c] + w;
      CountBelow(n, c, w);
      assert u[|n.prefix| + 1..] == w;
      if Vanishes(ch, v) { RemoveCount(n, c, u); }
      else { SetSlotCounts(n, c, Unsubscribe(ch, v).node, u); }
    } else {
      u := n.prefix;
      RemoveCount(n, c, u);
    }
  }

  /** An unsubscribe does what it should if and only if its walk ends outside the trie, at the root
      without a subscription, or at the node of a live subscription without narrowing a live node. */
  lemma UnsubscribeExact(t: Option<Node>, s: Bytes)
    requires ShapeOpt(t)
    ensures Removes(t, s, Unsubscribe(t, s)) <==> !UnsubscribeFails(t, s)
  {
    EndCount(t, s);
    match EndOf(t, s) {
      case NullNode => EndNull(t, s);
      case Gap => if Below(t, s) { EndGap(t, s); }
      case Elsewhere => EndElsewhere(t, s);
      case At(k, exact) =>
        if k == 0 { EndUnused(t, s); }
        else { HitShape(t, s); HitExact(t, s); }
    }
  }

  lemma HitExact(t: Option<Node>, s: Bytes)
    requires ShapeOpt(t) && Hits(t, s)
    ensures Unsubscribe(t, s).Done?
    ensures TakesAway(t, s, Unsubscribe(t, s).node) <==> EndOf(t, s).exact && !NarrowsLive(t, s)
  {
    EndCount(t, s);
    TargetExact(t, s);
    var w := Target(t, s);
    TargetCount(t, s);
    HitCount(t, s, w);
    var r := Unsubscribe(t, s).node;
    if EndOf(t, s).exact {
      if NarrowsLive(t, s) {
        var u := NarrowLoss(t, s);
        assert u != s;
      } else {
        forall u ensures CountOpt(r, u) ==
          if u == s && CountOpt(t, u) > 0 then CountOpt(t, u) - 1 else CountOpt(t, u)
        {
          HitCount(t, s, u);
        }
      }
    }
  }

  /** Unsubscribing a live string goes wrong only by narrowing a live node on the way up. */
  lemma UnsubscribeLive(t: Option<Node>, s: Bytes)
    requires ShapeOpt(t) && CountOpt(t, s) > 0
    ensures UnsubscribeFails(t, s) <==> NarrowsLive(t, s)
  {
    EndCount(t, s);
  }
}
