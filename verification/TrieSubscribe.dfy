/** nn_trie_subscribe as a function from trie to trie, and exactly when it adds the
    subscription and changes nothing else. */
module TrieSubscribe {
  import opened Common
  import opened TrieNode

  /** Length of the longest common prefix. */
  function CommonLen(p: Bytes, s: Bytes): (k: nat)
    ensures k <= |p| && k <= |s|
    ensures p[..k] == s[..k]
    ensures k < |p| && k < |s| ==> p[k] != s[k]
    ensures k == |p| <==> p <= s
  {
    if p == [] || s == [] || p[0] != s[0] then 0
    else
      var k := CommonLen(p[1..], s[1..]);
      assert p[..1 + k] == [p[0]] + p[1..][..k];
      assert s[..1 + k] == [s[0]] + s[1..][..k];
      assert k == |p[1..]| ==> p == p[..1 + k];
      1 + k
  }

  /** nn_node_compact: merges a node with its only child if the prefixes fit. */
  function Compact(n: Node): Node
    requires LocalShape(n)
  {
    if n.refcount > 0 || !n.kids.Sparse? || |n.slots| != 1 then n
    else
      var ch := n.slots[0].value;
      if |n.prefix| + |ch.prefix| + 1 > PREFIX_MAX then n
      else ch.(prefix := n.prefix + [n.kids.chars[0]] + ch.prefix)
  }

  lemma ChangePrefix(n: Node, p: Bytes)
    requires Shape(n) && |p| <= PREFIX_MAX
    ensures Shape(n.(prefix := p))
    ensures forall c: byte :: Child(n.(prefix := p), c) == Child(n, c)
  {
    var m := n.(prefix := p);
    assert m.slots == n.slots && m.kids == n.kids;
    forall c: byte ensures Child(m, c) == Child(n, c) {
      assert Index(m, c) == Index(n, c);
    }
  }

  lemma CompactShape(n: Node)
    requires Shape(n)
    ensures Shape(Compact(n))
  {
    if Compact(n) != n {
      var ch := n.slots[0].value;
      ChangePrefix(ch, n.prefix + [n.kids.chars[0]] + ch.prefix);
    }
  }

  lemma CompactKeeps(n: Node, u: Bytes)
    requires Shape(n)
    ensures Count(Compact(n), u) == Count(n, u)
  {
    if Compact(n) != n {
      var ch, c := n.slots[0].value, n.kids.chars[0];
      ChangePrefix(ch, n.prefix + [c] + ch.prefix);
      CompactCount(n, ch, Compact(n), c, u);
    }
  }

  lemma CompactCount(n: Node, ch: Node, m: Node, c: byte, u: Bytes)
    requires n.refcount == 0 && n.kids == Sparse([c]) && n.slots == [Some(ch)]
    requires m.refcount == ch.refcount && m.prefix == n.prefix + [c] + ch.prefix
    requires forall d: byte :: Child(m, d) == Child(ch, d)
    ensures Count(m, u) == Count(n, u)
  {
    var k := |n.prefix|;
    assert m.prefix[..k] == n.prefix && m.prefix[k] == c;
    if Through(n, c, u) {
      var v := u[k + 1..];
      assert u == n.prefix + [c] + v;
      assert FindChar([c], c) == 0;
      assert Count(n, u) == Count(ch, v);
      LongerCount(ch, m, n.prefix + [c], v);
    } else {
      assert !(m.prefix <= u);
      if n.prefix <= u && |u| > k { assert FindChar([c], u[k]) == 1; }
    }
  }

  /** A node with a longer prefix and the same children counts longer strings. */
  lemma LongerCount(ch: Node, m: Node, p: Bytes, v: Bytes)
    requires m.refcount == ch.refcount && m.prefix == p + ch.prefix
    requires forall d: byte :: Child(m, d) == Child(ch, d)
    ensures Count(m, p + v) == Count(ch, v)
  {
    LongerPrefix(p, ch.prefix, v);
    if ch.prefix <= v && |v| > |ch.prefix| {
      assert (p + v)[|m.prefix|] == v[|ch.prefix|];
      assert (p + v)[|m.prefix| + 1..] == v[|ch.prefix| + 1..];
    }
  }

  lemma LongerPrefix(p: Bytes, q: Bytes, v: Bytes)
    ensures p + q <= p + v <==> q <= v
  {
    if p + q <= p + v {
      assert v[..|q|] == (p + v)[|p|..|p| + |q|] == (p + q)[|p|..] == q;
    }
  }

  /** Step 2: the prefix of `n` is cut at `pos`. */
  function Split(n: Node, pos: nat): Node
    requires Shape(n)
    requires pos < |n.prefix|
  {
    var ch := n.(prefix := n.prefix[pos + 1..]);
    Node(0, n.prefix[..pos], Sparse([n.prefix[pos]]), [Some(Compact(ch))])
  }

  lemma SplitShape(n: Node, pos: nat)
    requires Shape(n) && pos < |n.prefix|
    ensures Shape(Split(n, pos))
  {
    ChangePrefix(n, n.prefix[pos + 1..]);
    CompactShape(n.(prefix := n.prefix[pos + 1..]));
    assert Split(n, pos).slots == [Some(Compact(n.(prefix := n.prefix[pos + 1..])))];
  }

  lemma SplitKeeps(n: Node, pos: nat, u: Bytes)
    requires Shape(n) && pos < |n.prefix|
    ensures Count(Split(n, pos), u) == Count(n, u)
  {
    var m, c := Split(n, pos), n.prefix[pos];
    var ch := n.(prefix := n.prefix[pos + 1..]);
    ChangePrefix(n, n.prefix[pos + 1..]);
    var raw := Node(0, n.prefix[..pos], Sparse([c]), [Some(ch)]);
    assert n.prefix == raw.prefix + [c] + ch.prefix;
    CompactCount(raw, ch, n, c, u);
    if m.prefix <= u && |u| > pos {
      assert Index(m, u[pos]) == Index(raw, u[pos]);
      CompactKeeps(ch, u[pos + 1..]);
    }
  }

  function Nulls(k: nat): (s: seq<Option<Node>>)
    ensures |s| == k && forall i | 0 <= i < k :: s[i] == None
  {
    seq(k, _ => None)
  }

  function MinByte(a: byte, b: byte): byte { if a < b then a else b }
  function MaxByte(a: byte, b: byte): byte { if a > b then a else b }

  /** Smallest and largest character of a full sparse node and a new one. */
  function MinOf(chars: Bytes, c: byte): (r: byte)
    ensures r <= c && forall i | 0 <= i < |chars| :: r <= chars[i]
    ensures r == c || r in chars
  {
    if chars == [] then c else MinByte(MinOf(chars[..|chars| - 1], c), chars[|chars| - 1])
  }

  function MaxOf(chars: Bytes, c: byte): (r: byte)
    ensures r >= c && forall i | 0 <= i < |chars| :: r >= chars[i]
    ensures r == c || r in chars
  {
    if chars == [] then c else MaxByte(MaxOf(chars[..|chars| - 1], c), chars[|chars| - 1])
  }

  /** The child array of a sparse node spread over the characters from `min` on. */
  function Spread(chars: Bytes, slots: seq<Option<Node>>, min: nat, size: nat): (r: seq<Option<Node>>)
    requires |chars| == |slots|
    requires min + size <= 256
    ensures |r| == size
  {
    seq(size, j requires 0 <= j < size =>
      var i := FindChar(chars, min + j);
      if i < |chars| then slots[i] else None)
  }

  lemma {:induction false} SpreadPresent(chars: Bytes, slots: seq<Option<Node>>, min: nat, size: nat)
    requires |chars| == |slots| && Distinct(chars) && min + size <= 256
    requires forall i | 0 <= i < |chars| :: min <= chars[i] < min + size
    requires forall i | 0 <= i < |slots| :: slots[i].Some?
    ensures Present(Spread(chars, slots, min, size)) == |chars|
    decreases |chars|
  {
    if chars == [] {
      forall j | 0 <= j < size ensures Spread(chars, slots, min, size)[j].None? {
        assert FindChar(chars, min + j) == 0;
      }
      PresentNone(Spread(chars, slots, min, size));
    } else {
      var k := |chars| - 1;
      SpreadPresent(chars[..k], slots[..k], min, size);
      SpreadLast(chars, slots, min, size);
      PresentUpdate(Spread(chars[..k], slots[..k], min, size), chars[k] - min, slots[k]);
    }
  }

  lemma SpreadLast(chars: Bytes, slots: seq<Option<Node>>, min: nat, size: nat)
    requires |chars| == |slots| > 0 && Distinct(chars) && min + size <= 256
    requires min <= chars[|chars| - 1] < min + size
    ensures var k := |chars| - 1;
            var q := Spread(chars[..k], slots[..k], min, size);
            q[chars[k] - min].None? && Spread(chars, slots, min, size) == q[chars[k] - min := slots[k]]
  {
    var k := |chars| - 1;
    var q, r := Spread(chars[..k], slots[..k], min, size), Spread(chars, slots, min, size);
    FindCharLast(chars, chars[k]);
    forall j | 0 <= j < size ensures r[j] == q[chars[k] - min := slots[k]][j] {
      FindCharLast(chars, min + j);
    }
  }

  lemma FindCharLast(chars: Bytes, c: byte)
    requires chars != [] && Distinct(chars)
    ensures var k := |chars| - 1;
            FindChar(chars, c) == if c == chars[k] then k
                                  else if FindChar(chars[..k], c) < k then FindChar(chars[..k], c)
                                  else k + 1
    ensures c == chars[|chars| - 1] ==> FindChar(chars[..|chars| - 1], c) == |chars| - 1
  {}

  /** Step 3: makes an empty slot for `c` in a node that has none, or none in use. */
  function AddSlot(n: Node, c: byte): Node
    requires LocalShape(n) && Child(n, c).None?
  {
    match n.kids
    case Sparse(chars) =>
      if |chars| < SPARSE_MAX then
        n.(kids := Sparse(chars + [c]), slots := n.slots + [None])
      else
        var min, max := MinOf(chars, c), MaxOf(chars, c);
        // The refcount of the old node is not carried over.
        Node(0, n.prefix, Dense(min, max, |chars| + 1),
             Spread(chars, n.slots, min, max as int - min as int + 1))
    case Dense(min, max, nbr) =>
      if c < min then
        n.(kids := Dense(c, max, nbr + 1), slots := Nulls(min - c) + n.slots)
      else if c > max then
        n.(kids := Dense(min, c, nbr + 1), slots := n.slots + Nulls(c - max))
      else
        n.(kids := Dense(min, max, nbr + 1))
  }

  /** The guard of the conversion from sparse to dense. */
  predicate Widens(n: Node) {
    n.kids.Sparse? && |n.kids.chars| >= SPARSE_MAX
  }

  lemma NotInChars(n: Node, c: byte)
    requires LocalShape(n) && n.kids.Sparse? && Child(n, c).None?
    ensures FindChar(n.kids.chars, c) == |n.kids.chars|
    ensures c !in n.kids.chars
  {
    if FindChar(n.kids.chars, c) < |n.kids.chars| { assert false; }
  }

  lemma AddSlotChildren(n: Node, c: byte, d: byte)
    requires LocalShape(n) && Child(n, c).None?
    ensures Child(AddSlot(n, c), d) == Child(n, d)
    ensures Index(AddSlot(n, c), c).Some? && Index(AddSlot(n, c), c).value < |AddSlot(n, c).slots|
  {
    if n.kids.Sparse? {
      NotInChars(n, c);
      if |n.kids.chars| < SPARSE_MAX { GrowSparseChildren(n, c, d); }
      else { WidenChildren(n, c, d); }
    } else { GrowDenseChildren(n, c, d); }
  }

  lemma GrowSparseChildren(n: Node, c: byte, d: byte)
    requires LocalShape(n) && Child(n, c).None?
    requires n.kids.Sparse? && |n.kids.chars| < SPARSE_MAX && c !in n.kids.chars
    ensures Child(AddSlot(n, c), d) == Child(n, d)
    ensures Index(AddSlot(n, c), c) == Some(|n.slots|)
  {
    var chars := n.kids.chars;
    FindCharLast(chars + [c], d);
    FindCharLast(chars + [c], c);
    assert (chars + [c])[..|chars|] == chars;
  }

  lemma WidenChildren(n: Node, c: byte, d: byte)
    requires LocalShape(n) && Child(n, c).None? && Widens(n)
    ensures Child(AddSlot(n, c), d) == Child(n, d)
    ensures Index(AddSlot(n, c), c).Some? && Index(AddSlot(n, c), c).value < |AddSlot(n, c).slots|
  {
    var chars := n.kids.chars;
    var m := AddSlot(n, c);
    var min := m.kids.min;
    if min <= d <= m.kids.max {
      assert m.slots[d - min] == if FindChar(chars, d) < |chars| then n.slots[FindChar(chars, d)] else None;
    } else {
      assert d !in chars;
    }
  }

  lemma GrowDenseChildren(n: Node, c: byte, d: byte)
    requires LocalShape(n) && Child(n, c).None? && n.kids.Dense?
    ensures Child(AddSlot(n, c), d) == Child(n, d)
    ensures Index(AddSlot(n, c), c).Some? && Index(AddSlot(n, c), c).value < |AddSlot(n, c).slots|
  {}

  /** The node of step 3 has the shape again once its new slot is filled. */
  lemma AddSlotShape(n: Node, c: byte, x: Node)
    requires Shape(n) && Child(n, c).None? && Shape(x)
    ensures Shape(SetSlot(AddSlot(n, c), c, Some(x)))
  {
    if n.kids.Dense? { GrowDenseShape(n, c, x); }
    else if |n.kids.chars| < SPARSE_MAX { GrowSparseShape(n, c, x); }
    else { WidenShape(n, c, x); }
    var r := SetSlot(AddSlot(n, c), c, Some(x));
    ShapeParts(n);
    AllShapeFrom(r.slots, n.slots, Some(x));
    ShapeParts(r);
  }

  ghost predicate FilledFrom(r: Node, n: Node, x: Node) {
    forall j | 0 <= j < |r.slots| ::
      r.slots[j].None? || r.slots[j] == Some(x) || r.slots[j] in n.slots
  }

  lemma GrowSparseShape(n: Node, c: byte, x: Node)
    requires LocalShape(n) && Child(n, c).None?
    requires n.kids.Sparse? && |n.kids.chars| < SPARSE_MAX
    ensures var r := SetSlot(AddSlot(n, c), c, Some(x));
            LocalShape(r) && FilledFrom(r, n, x)
  {
    var chars := n.kids.chars;
    NotInChars(n, c);
    FindCharLast(chars + [c], c);
    var r := SetSlot(AddSlot(n, c), c, Some(x));
    assert r.slots == n.slots + [Some(x)];
    assert r.kids == Sparse(chars + [c]);
  }

  lemma GrowDenseShape(n: Node, c: byte, x: Node)
    requires LocalShape(n) && Child(n, c).None? && n.kids.Dense?
    ensures var r := SetSlot(AddSlot(n, c), c, Some(x));
            LocalShape(r) && FilledFrom(r, n, x)
  {
    var min: int, max: int := n.kids.min, n.kids.max;
    var r := SetSlot(AddSlot(n, c), c, Some(x));
    if c < min {
      assert r.slots == Nulls(min - c)[0 := Some(x)] + n.slots;
      GrowLeft(n.slots, min - c, Some(x));
    } else if c > max {
      assert r.slots == n.slots + Nulls(c - max)[c - max - 1 := Some(x)];
      GrowRight(n.slots, c - max, Some(x));
    } else {
      assert r.slots == n.slots[c - min := Some(x)];
      PresentUpdate(n.slots, c - min, Some(x));
    }
  }

  lemma GrowLeft(s: seq<Option<Node>>, k: nat, x: Option<Node>)
    requires k > 0 && x.Some?
    ensures Present(Nulls(k)[0 := x] + s) == Present(s) + 1
  {
    PresentNone(Nulls(k));
    PresentUpdate(Nulls(k), 0, x);
    PresentSplit(Nulls(k)[0 := x], s);
  }

  lemma GrowRight(s: seq<Option<Node>>, k: nat, x: Option<Node>)
    requires k > 0 && x.Some?
    ensures Present(s + Nulls(k)[k - 1 := x]) == Present(s) + 1
  {
    PresentNone(Nulls(k));
    PresentUpdate(Nulls(k), k - 1, x);
    PresentSplit(s, Nulls(k)[k - 1 := x]);
  }

  lemma WidenShape(n: Node, c: byte, x: Node)
    requires LocalShape(n) && Child(n, c).None? && Widens(n)
    ensures var r := SetSlot(AddSlot(n, c), c, Some(x));
            LocalShape(r) && FilledFrom(r, n, x)
  {
    var chars := n.kids.chars;
    NotInChars(n, c);
    var min: int, max: int := MinOf(chars, c), MaxOf(chars, c);
    var q := Spread(chars, n.slots, min, max - min + 1);
    WidenSlots(chars, n.slots, min, max, c, Some(x));
    SpreadFrom(chars, n.slots, min, max - min + 1);
    assert SetSlot(AddSlot(n, c), c, Some(x)).slots == q[c - min := Some(x)];
  }

  lemma SpreadFrom(chars: Bytes, slots: seq<Option<Node>>, min: nat, size: nat)
    requires |chars| == |slots| && min + size <= 256
    ensures var q := Spread(chars, slots, min, size);
            forall j | 0 <= j < size :: q[j].None? || q[j] in slots
  {
    var q := Spread(chars, slots, min, size);
    forall j | 0 <= j < size ensures q[j].None? || q[j] in slots {
      assert FindChar(chars, min + j) <= |chars|;
    }
  }

  lemma WidenSlots(chars: Bytes, slots: seq<Option<Node>>, min: byte, max: byte, c: byte, x: Option<Node>)
    requires |chars| == |slots| == SPARSE_MAX && Distinct(chars) && c !in chars && x.Some?
    requires forall i | 0 <= i < |slots| :: slots[i].Some?
    requires forall i | 0 <= i < |chars| :: min <= chars[i] <= max
    requires min <= c <= max && (min == c || min in chars) && (max == c || max in chars)
    ensures var size := max as int - min + 1;
            DenseShape(min, max, SPARSE_MAX + 1, Spread(chars, slots, min, size)[c - min := x])
  {
    var size := max as int - min + 1;
    var q := Spread(chars, slots, min, size);
    SpreadPresent(chars, slots, min, size);
    SpreadAt(chars, slots, min, size, c - min);
    SpreadAt(chars, slots, min, size, 0);
    SpreadAt(chars, slots, min, size, max - min);
    PresentUpdate(q, c - min, x);
  }

  lemma SpreadAt(chars: Bytes, slots: seq<Option<Node>>, min: nat, size: nat, j: nat)
    requires |chars| == |slots| && min + size <= 256 && j < size
    requires forall i | 0 <= i < |slots| :: slots[i].Some?
    ensures Spread(chars, slots, min, size)[j].Some? <==> min + j in chars
  {
    assert FindChar(chars, min + j) < |chars| <==> min + j in chars;
  }

  /** Step 4 and 5: nodes for the rest of a subscription, at most ten bytes of prefix each. */
  function Fresh(s: Bytes): Node {
    if |s| > PREFIX_MAX then
      Node(0, s[..PREFIX_MAX], Sparse([s[PREFIX_MAX]]), [Some(Fresh(s[PREFIX_MAX + 1..]))])
    else
      Node(1, s, Sparse([]), [])
  }

  lemma {:induction false} FreshShape(s: Bytes)
    ensures Shape(Fresh(s))
  {
    if |s| > PREFIX_MAX {
      FreshShape(s[PREFIX_MAX + 1..]);
      assert Fresh(s).slots == [Some(Fresh(s[PREFIX_MAX + 1..]))];
    }
  }

  lemma {:induction false} FreshCount(s: Bytes, u: Bytes)
    ensures Count(Fresh(s), u) == if u == s then 1 else 0
  {
    var n := Fresh(s);
    if |s| <= PREFIX_MAX {
      assert n.prefix <= u && |u| == |s| ==> u == s;
    } else {
      var c, t := s[PREFIX_MAX], s[PREFIX_MAX + 1..];
      assert s == n.prefix + [c] + t;
      if n.prefix <= u && |u| > PREFIX_MAX {
        var d, v := u[PREFIX_MAX], u[PREFIX_MAX + 1..];
        assert u == n.prefix + [d] + v;
        assert FindChar([c], d) == if d == c then 0 else 1;
        FreshCount(t, v);
      }
    }
  }

  /** The walk goes on below `n`. */
  predicate Descends(n: Node, s: Bytes) {
    n.prefix <= s && |n.prefix| < |s| && Child(n, s[|n.prefix|]).Some?
  }

  /** Where the walk stops at `n`: the node that is entered, split if need be, and the rest of `s`. */
  function Stop(n: Node, s: Bytes): (r: (Node, Bytes))
    requires Shape(n) && !Descends(n, s)
    ensures Shape(r.0) && r.0.prefix + r.1 == s
    ensures r.1 == [] || Child(r.0, r.1[0]).None?
  {
    var pos := CommonLen(n.prefix, s);
    if pos < |n.prefix| then
      SplitShape(n, pos);
      (Split(n, pos), s[pos..])
    else
      (n, s[pos..])
  }

  /** Steps 3 to 5 at the node where the walk ended, `rest` being what is left of the string. */
  function Enter(n: Node, rest: Bytes): Node
    requires Shape(n)
    requires rest == [] || Child(n, rest[0]).None?
  {
    if rest == [] then n.(refcount := Inc32(n.refcount))
    else SetSlot(AddSlot(n, rest[0]), rest[0], Some(Fresh(rest[1..])))
  }

  /** nn_trie_subscribe. */
  function Subscribe(t: Option<Node>, s: Bytes): Node
    requires ShapeOpt(t)
    decreases |s|
  {
    if t.None? then Fresh(s)
    else if Descends(t.value, s) then
      var n, c := t.value, s[|t.value.prefix|];
      ChildIndex(n, c);
      SetSlot(n, c, Some(Subscribe(Child(n, c), s[|n.prefix| + 1..])))
    else
      var (m, rest) := Stop(t.value, s);
      Enter(m, rest)
  }

  /** The two ways a subscribe goes wrong, read off the node where its walk ends: that node is a
      subscription and its full child array has to be widened, or its 32-bit counter is full. */
  predicate SubscribeLoses(t: Option<Node>, s: Bytes)
    decreases |s|
  {
    if t.None? || !(t.value.prefix <= s) then false
    else if Descends(t.value, s) then
      SubscribeLoses(Child(t.value, s[|t.value.prefix|]), s[|t.value.prefix| + 1..])
    else if s == t.value.prefix then t.value.refcount == TWO_32 - 1
    else Widens(t.value) && t.value.refcount > 0
  }

  /** One more subscription to `s` and no other change. */
  ghost predicate Adds(t: Option<Node>, s: Bytes, n: Node) {
    forall u :: Count(n, u) == CountOpt(t, u) + if u == s then 1 else 0
  }

  lemma AddSlotCounts(n: Node, c: byte, u: Bytes)
    requires LocalShape(n) && Child(n, c).None?
    ensures Count(AddSlot(n, c), u) == if u == n.prefix then AddSlot(n, c).refcount else Count(n, u)
  {
    if n.prefix <= u && |u| > |n.prefix| {
      AddSlotChildren(n, c, u[|n.prefix|]);
    } else if n.prefix <= u {
      assert u == n.prefix;
    }
  }

  /** What steps 3 to 5 do to every count. */
  lemma EnterCounts(n: Node, rest: Bytes, u: Bytes)
    requires Shape(n)
    requires rest == [] || Child(n, rest[0]).None?
    ensures Count(Enter(n, rest), u) ==
            if u == n.prefix + rest then Inc32(Count(n, u))
            else if rest != [] && u == n.prefix && Widens(n) then 0
            else Count(n, u)
  {
    if rest == [] {
      assert n.prefix + rest == n.prefix;
      IncrementCounts(n, Inc32(n.refcount), u);
    } else {
      assert rest == [rest[0]] + rest[1..];
      assert n.prefix + rest == n.prefix + [rest[0]] + rest[1..];
      BranchCounts(n, rest[0], rest[1..], u);
    }
  }

  lemma IncrementCounts(n: Node, k: nat, u: Bytes)
    ensures Count(n.(refcount := k), u) == if u == n.prefix then k else Count(n, u)
  {
    if n.prefix <= u && |u| > |n.prefix| {
      var d := u[|n.prefix|];
      assert Index(n.(refcount := k), d) == Index(n, d);
      assert Child(n.(refcount := k), d) == Child(n, d);
    } else if n.prefix <= u {
      assert u == n.prefix;
    }
  }

  lemma BranchCounts(n: Node, c: byte, v: Bytes, u: Bytes)
    requires LocalShape(n) && Child(n, c).None?
    ensures Count(SetSlot(AddSlot(n, c), c, Some(Fresh(v))), u) ==
            if u == n.prefix + [c] + v then Inc32(Count(n, u))
            else if u == n.prefix && Widens(n) then 0
            else Count(n, u)
  {
    AddSlotChildren(n, c, c);
    AddSlotCounts(n, c, u);
    SetSlotCounts(AddSlot(n, c), c, Some(Fresh(v)), u);
    CountBelow(n, c, v);
    if Through(n, c, u) {
      FreshCount(v, u[|n.prefix| + 1..]);
      assert u == n.prefix + [c] + u[|n.prefix| + 1..];
    }
  }

  lemma EnterShape(n: Node, rest: Bytes)
    requires Shape(n)
    requires rest == [] || Child(n, rest[0]).None?
    requires rest == [] ==> n.refcount < TWO_32 - 1
    ensures Shape(Enter(n, rest))
  {
    if rest == [] {
      ShapeParts(n);
      ShapeParts(Enter(n, rest));
    } else {
      FreshShape(rest[1..]);
      AddSlotShape(n, rest[0], Fresh(rest[1..]));
    }
  }

  lemma ChildIndex(n: Node, c: byte)
    requires Shape(n) && Child(n, c).Some?
    ensures Index(n, c).Some? && Index(n, c).value < |n.slots|
    ensures Child(n, c) == n.slots[Index(n, c).value] && Shape(Child(n, c).value)
  {}

  lemma SetSlotShape(n: Node, c: byte, x: Node)
    requires Shape(n) && Child(n, c).Some? && Shape(x)
    ensures Shape(SetSlot(n, c, Some(x)))
  {
    ChildIndex(n, c);
    var i := Index(n, c).value;
    var m := SetSlot(n, c, Some(x));
    assert m.slots == n.slots[i := Some(x)];
    PresentUpdate(n.slots, i, Some(x));
    ShapeParts(n);
    AllShapeFrom(m.slots, n.slots, Some(x));
    ShapeParts(m);
  }

  /** Replacing the child at `c` by one whose counts differ only by a subscription to `v`. */
  lemma DescendCount(n: Node, c: byte, v: Bytes, x: Node, u: Bytes)
    requires Shape(n) && Child(n, c).Some?
    requires Through(n, c, u) ==>
               var w := u[|n.prefix| + 1..];
               Count(x, w) == if w == v then Inc32(CountOpt(Child(n, c), w)) else CountOpt(Child(n, c), w)
    ensures Count(SetSlot(n, c, Some(x)), u) ==
            if u == n.prefix + [c] + v then Inc32(Count(n, u)) else Count(n, u)
  {
    ChildIndex(n, c);
    SetSlotCounts(n, c, Some(x), u);
    if Through(n, c, u) {
      assert u == n.prefix + [c] + u[|n.prefix| + 1..];
    } else {
      CountBelow(n, c, v);
    }
  }

  lemma StopCount(n: Node, s: Bytes, u: Bytes)
    requires Shape(n) && !Descends(n, s)
    ensures Count(Stop(n, s).0, u) == Count(n, u)
  {
    var pos := CommonLen(n.prefix, s);
    if pos < |n.prefix| { SplitKeeps(n, pos, u); }
  }

  lemma StopLoses(n: Node, s: Bytes)
    requires Shape(n) && !Descends(n, s)
    ensures var (m, rest) := Stop(n, s);
            SubscribeLoses(Some(n), s) <==>
            if rest == [] then m.refcount == TWO_32 - 1 else Widens(m) && m.refcount > 0
  {
    var pos := CommonLen(n.prefix, s);
    if n.prefix <= s { assert s[pos..] == [] ==> s == n.prefix; }
  }

  /** Every count after a subscribe that does not go wrong. */
  lemma {:induction false} SubscribeCount(t: Option<Node>, s: Bytes, u: Bytes)
    requires ShapeOpt(t)
    requires u == s || !SubscribeLoses(t, s)
    ensures Count(Subscribe(t, s), u) == if u == s then Inc32(CountOpt(t, u)) else CountOpt(t, u)
    decreases |s|
  {
    if t.None? {
      FreshCount(s, u);
    } else if Descends(t.value, s) {
      var n, c, v := t.value, s[|t.value.prefix|], s[|t.value.prefix| + 1..];
      ChildIndex(n, c);
      assert s == n.prefix + [c] + v;
      if Through(n, c, u) {
        assert u == n.prefix + [c] + u[|n.prefix| + 1..];
        SubscribeCount(Child(n, c), v, u[|n.prefix| + 1..]);
      }
      DescendCount(n, c, v, Subscribe(Child(n, c), v), u);
    } else {
      var (m, rest) := Stop(t.value, s);
      StopCount(t.value, s, u);
      StopLoses(t.value, s);
      EnterCounts(m, rest, u);
    }
  }

  /** A subscribe that goes wrong forgets a live string. */
  lemma {:induction false} SubscribeLoss(t: Option<Node>, s: Bytes) returns (u: Bytes)
    requires ShapeOpt(t) && SubscribeLoses(t, s)
    ensures CountOpt(t, u) > 0 && Count(Subscribe(t, s), u) == 0
    ensures u <= s && (u == s ==> CountOpt(t, s) == TWO_32 - 1)
    decreases |s|
  {
    var n := t.value;
    if Descends(n, s) {
      var c, v := s[|n.prefix|], s[|n.prefix| + 1..];
      ChildIndex(n, c);
      var w := SubscribeLoss(Child(n, c), v);
      u := n.prefix + [c] + w;
      assert s == n.prefix + [c] + v;
      var x := Subscribe(Child(n, c), v);
      LossBelow(n, c, v, w, x);
      assert Subscribe(t, s) == SetSlot(n, c, Some(x));
    } else {
      u := n.prefix;
      StopLosesHere(n, s);
    }
  }

  lemma LossBelow(n: Node, c: byte, v: Bytes, w: Bytes, x: Node)
    requires Shape(n) && Child(n, c).Some?
    requires CountOpt(Child(n, c), w) > 0 && Count(x, w) == 0
    requires w <= v && (w == v ==> CountOpt(Child(n, c), v) == TWO_32 - 1)
    ensures var u, s := n.prefix + [c] + w, n.prefix + [c] + v;
            && Count(n, u) > 0 && Count(SetSlot(n, c, Some(x)), u) == 0
            && u <= s && (u == s ==> Count(n, s) == TWO_32 - 1)
  {
    var u, s := n.prefix + [c] + w, n.prefix + [c] + v;
    ChildIndex(n, c);
    CountBelow(n, c, w);
    CountBelow(n, c, v);
    SetSlotCounts(n, c, Some(x), u);
    assert u[|n.prefix| + 1..] == w;
    LongerPrefix(n.prefix + [c], w, v);
    assert u == s ==> w == s[|n.prefix| + 1..] == v;
  }

  lemma StopLosesHere(n: Node, s: Bytes)
    requires Shape(n) && !Descends(n, s) && SubscribeLoses(Some(n), s)
    ensures Count(n, n.prefix) > 0 && Count(Subscribe(Some(n), s), n.prefix) == 0
    ensures n.prefix <= s && (n.prefix == s ==> Count(n, s) == TWO_32 - 1)
  {
    var (m, rest) := Stop(n, s);
    assert m == n;
    EnterCounts(m, rest, n.prefix);
  }

  lemma {:induction false} SubscribeShape(t: Option<Node>, s: Bytes)
    requires ShapeOpt(t)
    requires CountOpt(t, s) < TWO_32 - 1
    ensures Shape(Subscribe(t, s))
    decreases |s|
  {
    if t.None? {
      FreshShape(s);
    } else if Descends(t.value, s) {
      var n, c, v := t.value, s[|t.value.prefix|], s[|t.value.prefix| + 1..];
      ChildIndex(n, c);
      SubscribeShape(Child(n, c), v);
      SetSlotShape(n, c, Subscribe(Child(n, c), v));
    } else {
      var (m, rest) := Stop(t.value, s);
      StopCount(t.value, s, s);
      assert rest == [] ==> m.prefix == s;
      EnterShape(m, rest);
    }
  }

  /** A subscribe adds its string and changes nothing else if and only if the walk does not end
      at a subscribed node that must be widened, or at a full counter. */
  lemma SubscribeExact(t: Option<Node>, s: Bytes)
    requires ShapeOpt(t)
    ensures Adds(t, s, Subscribe(t, s)) <==> !SubscribeLoses(t, s)
    ensures !SubscribeLoses(t, s) ==> Shape(Subscribe(t, s))
    ensures Count(Subscribe(t, s), s) == 1 <==> CountOpt(t, s) == 0
  {
    SubscribeCount(t, s, s);
    CountLimit(t, s);
    FullCounter(t, s);
    if SubscribeLoses(t, s) { SubscribeLost(t, s); } else { SubscribeAdds(t, s); SubscribeShape(t, s); }
  }

  lemma SubscribeAdds(t: Option<Node>, s: Bytes)
    requires ShapeOpt(t) && !SubscribeLoses(t, s)
    ensures Adds(t, s, Subscribe(t, s))
  {
    FullCounter(t, s);
    forall u ensures Count(Subscribe(t, s), u) == CountOpt(t, u) + if u == s then 1 else 0 {
      SubscribeCount(t, s, u);
    }
  }

  lemma SubscribeLost(t: Option<Node>, s: Bytes)
    requires ShapeOpt(t) && SubscribeLoses(t, s)
    ensures !Adds(t, s, Subscribe(t, s))
  {
    var u := SubscribeLoss(t, s);
  }

  lemma {:induction false} FullCounter(t: Option<Node>, s: Bytes)
    requires ShapeOpt(t)
    ensures CountOpt(t, s) >= TWO_32 - 1 ==> CountOpt(t, s) == TWO_32 - 1 && SubscribeLoses(t, s)
    decreases |s|
  {
    CountLimit(t, s);
    if t.Some? && t.value.prefix <= s {
      var n := t.value;
      if |s| == |n.prefix| {
        assert s == n.prefix;
      } else if Descends(n, s) {
        ChildIndex(n, s[|n.prefix|]);
        FullCounter(Child(n, s[|n.prefix|]), s[|n.prefix| + 1..]);
      } else {
        assert CountOpt(t, s) == CountOpt(Child(n, s[|n.prefix|]), s[|n.prefix| + 1..]) == 0;
      }
    }
  }

  lemma {:induction false} CountLimit(t: Option<Node>, u: Bytes)
    requires ShapeOpt(t)
    ensures CountOpt(t, u) < TWO_32
    decreases |u|
  {
    if t.Some? && t.value.prefix <= u && |u| > |t.value.prefix| {
      var n := t.value;
      if Child(n, u[|n.prefix|]).Some? { ChildIndex(n, u[|n.prefix|]); }
      CountLimit(Child(n, u[|n.prefix|]), u[|n.prefix| + 1..]);
    }
  }
}
