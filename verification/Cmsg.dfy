/** The control buffer in which nn_recvmsg hands the protocol header to a device and from which
    nn_sendmsg takes it back: ancillary data as in section 5 of RFC 3542, with 64-bit sizes in
    little-endian order. */
module Cmsg {
  import opened Common
  import opened Message
  import opened Iteration

  const PROTO_SP := 1
  const SP_HDR := 1
  const SIZE_LIMIT := 0x1_0000_0000_0000_0000

  /** The `k` bytes of a native integer, and back. */
  function Native(n: nat, k: nat): (b: Bytes)
    ensures |b| == k
  {
    if k == 0 then [] else [n % 256] + Native(n / 256, k - 1)
  }

  function Value(b: Bytes): nat {
    if b == [] then 0 else b[0] + 256 * Value(b[1..])
  }

  function Pow256(k: nat): nat {
    if k == 0 then 1 else 256 * Pow256(k - 1)
  }

  lemma {:induction false} ValueNative(n: nat, k: nat)
    requires n < Pow256(k)
    ensures Value(Native(n, k)) == n
  {
    if k > 0 {
      ValueNative(n / 256, k - 1);
      assert Native(n, k)[1..] == Native(n / 256, k - 1);
    }
  }

  lemma {:induction false} ValueBound(b: Bytes)
    ensures Value(b) < Pow256(|b|)
  {
    if b != [] { ValueBound(b[1..]); }
  }

  lemma Pow256Of8()
    ensures Pow256(4) == TWO_32 && Pow256(8) == SIZE_LIMIT
  {
    assert Pow256(2) == 0x1_0000;
    assert Pow256(4) == 0x1_0000 * 0x1_0000;
    assert Pow256(6) == 0x1_0000 * Pow256(4);
    assert Pow256(8) == 0x1_0000 * Pow256(6);
  }

  /** Rounding up to a multiple of eight. */
  function RoundUp(n: nat): (r: nat)
    ensures n <= r < n + 8 && r % 8 == 0
  {
    (n + 7) / 8 * 8
  }

  /** NN_CMSG_ALIGN_: the largest lengths are aligned to zero. */
  function Align(n: nat): nat {
    if n + 7 < SIZE_LIMIT then RoundUp(n) else 0
  }

  /** The addition in front of the rounding wraps around. */
  lemma AlignWraps(n: nat)
    requires n < SIZE_LIMIT
    ensures Align(n) == (n + 7) % 0x1_0000_0000_0000_0000 / 8 * 8
  {}

  /** NN_CMSG_SPACE, for sizes of which there can be a buffer. */
  function Space(n: nat): nat {
    RoundUp(n) + 16
  }

  /** Addition and subtraction of two `size_t`. */
  function Add64(a: nat, b: nat): nat {
    if a + b < SIZE_LIMIT then a + b else a + b - SIZE_LIMIT
  }

  function Sub64(a: nat, b: nat): nat
    requires b < SIZE_LIMIT
  {
    if a >= b then a - b else a - b + SIZE_LIMIT
  }

  /** The buffer nn_recvmsg allocates and fills in: one SP_HDR property, whose padding is not
      written, and the other properties of the message behind it. */
  function Control(sphdr: Bytes, pad: Bytes, hdrs: Bytes): Bytes {
    Property(sphdr) + pad + hdrs
  }

  function Property(sphdr: Bytes): (r: Bytes)
    ensures |r| == 24 + |sphdr|
  {
    Native(Space(|sphdr| + 8), 8) + Native(PROTO_SP, 4) + Native(SP_HDR, 4) + Native(|sphdr|, 8) + sphdr
  }

  /** The fields of the property at offset `at`. */
  function LenAt(buf: Bytes, at: nat): (len: nat)
    requires at + 16 <= |buf|
    ensures len < SIZE_LIMIT
  {
    ValueBound(buf[at..at + 8]);
    Pow256Of8();
    Value(buf[at..at + 8])
  }

  predicate IsSpHdr(buf: Bytes, at: nat)
    requires at + 16 <= |buf|
  {
    Value(buf[at + 8..at + 12]) == PROTO_SP && Value(buf[at + 12..at + 16]) == SP_HDR
  }

  /** Where the property behind the one at offset `at` is taken to be. */
  function After(buf: Bytes, at: nat): (next: nat)
    requires at + 16 <= |buf|
  {
    Add64(at, Align(LenAt(buf, at)))
  }

  /** The tests of nn_cmsg_nxthdr_: there is room for a property at offset `at`. The first test cannot wrap
      around, because the offset came from a property that fitted and a buffer is not that large. */
  predicate Fits(buf: Bytes, at: nat) {
    at + 16 <= |buf| && After(buf, at) <= |buf|
  }

  /** What the search of nn_sendmsg for the SP_HDR property has come to. */
  datatype Stage = At(offset: nat) | Found(offset: nat) | Missing

  function Look(buf: Bytes, at: nat): Stage {
    if !Fits(buf, at) then Missing else if IsSpHdr(buf, at) then Found(at) else At(at)
  }

  /** One round of the search. */
  function Step(buf: Bytes, w: Stage): Stage {
    if w.At? && Fits(buf, w.offset) then Look(buf, After(buf, w.offset)) else w
  }

  function Rounds(buf: Bytes): Stage -> Stage {
    w => Step(buf, w)
  }

  /** The search after `n` rounds. */
  function Walk(buf: Bytes, n: nat): (r: Stage)
    ensures !r.Missing? ==> Fits(buf, r.offset) && r == Look(buf, r.offset)
  {
    WalkLooks(buf, n);
    Iterate(Rounds(buf), Look(buf, 0), n)
  }

  lemma {:induction false} WalkLooks(buf: Bytes, n: nat)
    ensures var r := Iterate(Rounds(buf), Look(buf, 0), n);
            !r.Missing? ==> Fits(buf, r.offset) && r == Look(buf, r.offset)
  {
    if n > 0 { WalkLooks(buf, n - 1); }
  }

  lemma WalkNext(buf: Bytes, n: nat)
    ensures Walk(buf, n + 1) == Step(buf, Walk(buf, n))
  {}

  /** The search comes to an end. */
  ghost predicate Ends(buf: Bytes) {
    exists n: nat :: !Walk(buf, n).At?
  }

  /** The search comes back to a property where it was before. */
  ghost predicate Returns(buf: Bytes) {
    exists i: nat, j: nat :: i < j && Walk(buf, i).At? && Walk(buf, i) == Walk(buf, j)
  }

  lemma WalkStays(buf: Bytes, n: nat, m: nat)
    requires n <= m && !Walk(buf, n).At?
    ensures Walk(buf, m) == Walk(buf, n)
  {
    Stays(Rounds(buf), Look(buf, 0), n, m);
  }

  /** Once the search is back where it was, it goes round. */
  lemma WalkForever(buf: Bytes, i: nat, j: nat, n: nat)
    requires i < j && Walk(buf, i).At? && Walk(buf, i) == Walk(buf, j)
    ensures Walk(buf, n).At?
  {
    var m := n;
    if n >= i { m := Repeats(Rounds(buf), Look(buf, 0), i, j, n); }
    assert Walk(buf, m) == Walk(buf, n);
    if !Walk(buf, m).At? { WalkStays(buf, m, j); }
  }

  /** There are only so many offsets to visit. */
  lemma LongWalk(buf: Bytes)
    requires Walk(buf, |buf| + 1).At?
    ensures Returns(buf)
  {
    var n := |buf| + 2;
    forall k: nat | k < n ensures Walk(buf, k).At? {
      if !Walk(buf, k).At? { WalkStays(buf, k, |buf| + 1); }
    }
    var s := seq(n, k requires 0 <= k < n => Walk(buf, k).offset);
    assert !Distinct(s) by {
      if Distinct(s) { DistinctBound(s, |buf| + 1); }
    }
    var i, j :| 0 <= i < j < n && s[i] == s[j];
    assert Walk(buf, i) == Walk(buf, j);
  }

  /** The search ends if and only if it does not come back to a property where it was before, and then
      it has ended after as many steps as there are bytes. */
  lemma SearchEnds(buf: Bytes)
    ensures Ends(buf) <==> !Returns(buf)
    ensures Ends(buf) <==> !Walk(buf, |buf| + 1).At?
  {
    if Returns(buf) {
      var i: nat, j: nat :| i < j && Walk(buf, i).At? && Walk(buf, i) == Walk(buf, j);
      forall n: nat ensures Walk(buf, n).At? { WalkForever(buf, i, j, n); }
    }
    if Walk(buf, |buf| + 1).At? { LongWalk(buf); }
  }

  /** The length of the property does not make the offset of the next one wrap around. */
  predicate Plain(buf: Bytes, at: nat)
    requires at + 16 <= |buf|
  {
    at + LenAt(buf, at) + 7 < SIZE_LIMIT
  }

  predicate PlainAt(buf: Bytes, w: Stage) {
    w.At? && Fits(buf, w.offset) ==> Plain(buf, w.offset)
  }

  predicate PositiveAt(buf: Bytes, w: Stage) {
    w.At? && Fits(buf, w.offset) ==> LenAt(buf, w.offset) > 0
  }

  /** As long as no length on the way wraps around, the search ends if and only if none is zero. */
  lemma PlainSearchEnds(buf: Bytes)
    requires forall n: nat :: PlainAt(buf, Walk(buf, n))
    ensures Ends(buf) <==> forall n: nat :: PositiveAt(buf, Walk(buf, n))
  {
    SearchEnds(buf);
    if n: nat :| !PositiveAt(buf, Walk(buf, n)) {
      StandsStill(buf, n);
    } else if Walk(buf, |buf| + 1).At? {
      WalkAdvances(buf, |buf| + 1);
    }
  }

  lemma {:induction false} WalkAdvances(buf: Bytes, n: nat)
    requires Walk(buf, n).At?
    requires forall n: nat :: PlainAt(buf, Walk(buf, n))
    requires forall n: nat :: PositiveAt(buf, Walk(buf, n))
    ensures Walk(buf, n).offset >= n
  {
    if n > 0 {
      WalkNext(buf, n - 1);
      WalkAdvances(buf, n - 1);
      StepAdvances(buf, Walk(buf, n - 1));
    }
  }

  lemma StepAdvances(buf: Bytes, w: Stage)
    requires w.At? && Fits(buf, w.offset) && PlainAt(buf, w) && PositiveAt(buf, w)
    ensures Step(buf, w).At? ==> Step(buf, w).offset > w.offset
  {}

  /** A property whose length is aligned to zero is its own successor: the search never ends. */
  lemma StandsStill(buf: Bytes, n: nat)
    requires Walk(buf, n).At?
    requires var len := LenAt(buf, Walk(buf, n).offset); len == 0 || len + 7 >= SIZE_LIMIT
    requires Walk(buf, n).offset < SIZE_LIMIT
    ensures !Ends(buf)
  {
    WalkNext(buf, n);
    assert Walk(buf, n + 1) == Walk(buf, n);
    SearchEnds(buf);
  }

  /** How nn_sendmsg ends: it takes a protocol header, reads beyond the buffer, or searches for ever. */
  datatype Taken = Header(bytes: Bytes) | Beyond | Endless

  /** What nn_sendmsg takes from the SP_HDR property at `at`: nothing unless the sizes agree. */
  function Extract(buf: Bytes, at: nat): Taken
    requires at + 16 <= |buf|
  {
    var clen := Sub64(LenAt(buf, at), 16);
    if clen <= 8 then Header([])
    else if at + 24 > |buf| then Beyond
    else
      var spsz := Value(buf[at + 16..at + 24]);
      if spsz > clen - 8 then Header([])
      else if at + 24 + spsz > |buf| then Beyond
      else Header(buf[at + 24..at + 24 + spsz])
  }

  /** It reads beyond the buffer if and only if the length is too small for a property or makes the
      end of the property wrap around, and the size that is then believed is not there or too large. */
  lemma ExtractInside(buf: Bytes, at: nat)
    requires Fits(buf, at)
    ensures Extract(buf, at) == Beyond <==>
            && (LenAt(buf, at) < 16 || !Plain(buf, at))
            && Sub64(LenAt(buf, at), 16) > 8
            && (|buf| < at + 24 ||
                |buf| < at + 24 + Value(buf[at + 16..at + 24]) <= at + 16 + Sub64(LenAt(buf, at), 16))
  {}

  /** The protocol header of a message sent with the given control buffer. */
  function SpHdr(buf: Bytes): Taken {
    match Walk(buf, |buf| + 1)
    case Found(at) => Extract(buf, at)
    case Missing => Header([])
    case At(_) => Endless
  }

  lemma FirstFound(buf: Bytes)
    requires Fits(buf, 0) && IsSpHdr(buf, 0)
    ensures SpHdr(buf) == Extract(buf, 0)
  {
    assert Walk(buf, 0) == Found(0);
    WalkStays(buf, 0, |buf| + 1);
  }

  lemma PropertyFields(len: nat, level: Bytes, kind: Bytes)
    requires len < SIZE_LIMIT && |level| == 4 && |kind| == 4
    ensures var p := Native(len, 8) + level + kind;
            |p| == 16 && LenAt(p, 0) == len && p[8..12] == level && p[12..16] == kind
  {
    var p := Native(len, 8) + level + kind;
    Pow256Of8();
    ValueNative(len, 8);
    assert p[0..8] == Native(len, 8);
  }

  /** A property of length 2^64 - 1 keeps the search where it is. */
  lemma WrappedLengthHangs(level: Bytes, kind: Bytes)
    requires |level| == 4 && |kind| == 4 && Value(level) != PROTO_SP
    ensures SpHdr(Native(SIZE_LIMIT - 1, 8) + level + kind) == Endless
  {
    var buf := Native(SIZE_LIMIT - 1, 8) + level + kind;
    PropertyFields(SIZE_LIMIT - 1, level, kind);
    assert Walk(buf, 0) == At(0);
    StandsStill(buf, 0);
    SearchEnds(buf);
  }

  /** Two properties that lead to each other. */
  lemma GoesRound(buf: Bytes, at: nat)
    requires Look(buf, 0) == At(0) && After(buf, 0) == at && Look(buf, at) == At(at) && After(buf, at) == 0
    ensures SpHdr(buf) == Endless
  {
    assert Walk(buf, 0) == At(0);
    WalkNext(buf, 0);
    assert Walk(buf, 1) == At(at);
    WalkNext(buf, 1);
    assert Walk(buf, 2) == At(0);
    SearchEnds(buf);
  }

  /** A property of length 2^64 - 16 behind one of length 16 leads back to that one. */
  lemma BackwardLengthHangs(level: Bytes, kind: Bytes)
    requires |level| == 4 && |kind| == 4 && Value(level) != PROTO_SP
    ensures SpHdr((Native(16, 8) + level + kind) + (Native(SIZE_LIMIT - 16, 8) + level + kind)) == Endless
  {
    PropertyFields(16, level, kind);
    PropertyFields(SIZE_LIMIT - 16, level, kind);
    LeadsBack(Native(16, 8) + level + kind, Native(SIZE_LIMIT - 16, 8) + level + kind);
  }

  lemma LeadsBack(first: Bytes, last: Bytes)
    requires |first| == 16 && LenAt(first, 0) == 16 && Value(first[8..12]) != PROTO_SP
    requires |last| == 16 && LenAt(last, 0) == SIZE_LIMIT - 16 && Value(last[8..12]) != PROTO_SP
    ensures SpHdr(first + last) == Endless
  {
    var buf := first + last;
    assert buf[0..8] == first[0..8] && buf[16..24] == last[0..8];
    assert buf[8..12] == first[8..12] && buf[24..28] == last[8..12];
    GoesRound(buf, 16);
  }

  /** A length that leads backwards need not keep the search from ending: here it leads into the middle of
      the first property, where there is no room for another one. */
  lemma BackwardMayEnd(level: Bytes, kind: Bytes, pad: Bytes)
    requires |level| == 4 && |kind| == 4 && |pad| == 8 && Value(level) != PROTO_SP
    requires 40 < Value(level + kind) < SIZE_LIMIT - 64
    ensures var buf := (Native(24, 8) + level + kind) + pad + (Native(SIZE_LIMIT - 16, 8) + level + kind);
            After(buf, 24) < 24 && SpHdr(buf) == Header([])
  {
    PropertyFields(24, level, kind);
    PropertyFields(SIZE_LIMIT - 16, level, kind);
    var first, last := Native(24, 8) + level + kind, Native(SIZE_LIMIT - 16, 8) + level + kind;
    assert first[8..16] == level + kind;
    BackInside(first, pad, last);
  }

  lemma BackInside(first: Bytes, pad: Bytes, last: Bytes)
    requires |first| == 16 && |pad| == 8 && |last| == 16
    requires LenAt(first, 0) == 24 && Value(first[8..12]) != PROTO_SP && 40 < Value(first[8..16]) < SIZE_LIMIT - 64
    requires LenAt(last, 0) == SIZE_LIMIT - 16 && Value(last[8..12]) != PROTO_SP
    ensures After(first + pad + last, 24) == 8 && SpHdr(first + pad + last) == Header([])
  {
    var buf := first + pad + last;
    assert buf[0..8] == first[0..8] && buf[8..12] == first[8..12] && buf[8..16] == first[8..16];
    assert buf[24..32] == last[0..8] && buf[32..36] == last[8..12];
    assert Look(buf, 0) == At(0) && After(buf, 0) == 24 && Look(buf, 24) == At(24) && After(buf, 24) == 8;
    assert Look(buf, 8) == Missing;
    BackAndOut(buf);
  }

  lemma BackAndOut(buf: Bytes)
    requires |buf| == 40
    requires Look(buf, 0) == At(0) && After(buf, 0) == 24 && Look(buf, 24) == At(24) && After(buf, 24) == 8
    requires Look(buf, 8) == Missing
    ensures SpHdr(buf) == Header([])
  {
    assert Walk(buf, 0) == At(0);
    WalkNext(buf, 0);
    assert Walk(buf, 1) == At(24);
    WalkNext(buf, 1);
    assert Walk(buf, 2) == Missing;
    WalkStays(buf, 2, |buf| + 1);
  }

  /** An SP_HDR property of length 8 at the end of the buffer is read beyond it. */
  lemma ShortHeaderBeyond()
    ensures SpHdr(Native(8, 8) + Native(PROTO_SP, 4) + Native(SP_HDR, 4)) == Beyond
  {
    var buf := Native(8, 8) + Native(PROTO_SP, 4) + Native(SP_HDR, 4);
    FieldValues(8, 8);
    assert buf[0..8] == Native(8, 8) && buf[8..12] == Native(PROTO_SP, 4) && buf[12..16] == Native(SP_HDR, 4);
    FirstFound(buf);
  }

  lemma Slices(len: Bytes, level: Bytes, kind: Bytes, size: Bytes, sphdr: Bytes, rest: Bytes)
    requires |len| == 8 && |level| == 4 && |kind| == 4 && |size| == 8
    ensures var buf := len + level + kind + size + sphdr + rest;
            && buf[0..8] == len && buf[8..12] == level && buf[12..16] == kind
            && buf[16..24] == size && buf[24..24 + |sphdr|] == sphdr
  {}

  /** The header survives the way through the control buffer, whatever the padding holds. */
  lemma ControlRoundTrip(sphdr: Bytes, pad: Bytes, hdrs: Bytes)
    requires |pad| == RoundUp(|sphdr| + 8) - (|sphdr| + 8)
    requires Space(|sphdr| + 8) < SIZE_LIMIT - 16
    ensures SpHdr(Control(sphdr, pad, hdrs)) == Header(sphdr)
  {
    var len := Space(|sphdr| + 8);
    FieldValues(len, |sphdr|);
    AlignedSpace(|sphdr| + 8);
    ReadBack(Native(len, 8), Native(PROTO_SP, 4), Native(SP_HDR, 4), Native(|sphdr|, 8), sphdr, pad + hdrs);
    ControlParts(sphdr, pad, hdrs);
  }

  lemma FieldValues(len: nat, size: nat)
    requires size <= len < SIZE_LIMIT
    ensures |Native(len, 8)| == 8 && Value(Native(len, 8)) == len
    ensures |Native(size, 8)| == 8 && Value(Native(size, 8)) == size
    ensures |Native(PROTO_SP, 4)| == 4 && Value(Native(PROTO_SP, 4)) == PROTO_SP
    ensures |Native(SP_HDR, 4)| == 4 && Value(Native(SP_HDR, 4)) == SP_HDR
  {
    Pow256Of8();
    ValueNative(len, 8);
    ValueNative(size, 8);
    ValueNative(PROTO_SP, 4);
    ValueNative(SP_HDR, 4);
  }

  lemma ControlParts(sphdr: Bytes, pad: Bytes, hdrs: Bytes)
    ensures Control(sphdr, pad, hdrs) ==
            Native(Space(|sphdr| + 8), 8) + Native(PROTO_SP, 4) + Native(SP_HDR, 4) + Native(|sphdr|, 8) +
            sphdr + (pad + hdrs)
  {}

  lemma ReadBack(len: Bytes, level: Bytes, kind: Bytes, size: Bytes, sphdr: Bytes, rest: Bytes)
    requires |len| == 8 && |level| == 4 && |kind| == 4 && |size| == 8
    requires Value(level) == PROTO_SP && Value(kind) == SP_HDR && Value(size) == |sphdr|
    requires Value(len) == Space(|sphdr| + 8) <= 24 + |sphdr| + |rest|
    requires Space(|sphdr| + 8) < SIZE_LIMIT - 16
    ensures SpHdr(len + level + kind + size + sphdr + rest) == Header(sphdr)
  {
    var buf := len + level + kind + size + sphdr + rest;
    Slices(len, level, kind, size, sphdr, rest);
    assert LenAt(buf, 0) == Space(|sphdr| + 8) && IsSpHdr(buf, 0);
    AlignedSpace(|sphdr| + 8);
    FirstFound(buf);
    if |sphdr| == 0 { assert Space(8) == 24; }
  }

  lemma AlignedSpace(n: nat)
    ensures RoundUp(Space(n)) == Space(n) && n + 16 <= Space(n) && (n > 8 ==> Space(n) > 24)
  {}

  /** A property of some other kind, with its padding. */
  predicate Foreign(p: Bytes) {
    && |p| >= 16 && LenAt(p, 0) + 7 < SIZE_LIMIT && RoundUp(LenAt(p, 0)) == |p|
    && (Value(p[8..12]) != PROTO_SP || Value(p[12..16]) != SP_HDR)
  }

  predicate AllForeign(props: seq<Bytes>) {
    forall i | 0 <= i < |props| :: Foreign(props[i])
  }

  /** The first `k` properties, one behind the other. */
  function Joined(props: seq<Bytes>, k: nat): Bytes
    requires k <= |props|
  {
    if k == 0 then [] else Joined(props, k - 1) + props[k - 1]
  }

  lemma {:induction false} JoinedSize(props: seq<Bytes>, k: nat)
    requires k <= |props| && AllForeign(props)
    ensures |Joined(props, k)| >= k
  {
    if k > 0 { JoinedSize(props, k - 1); }
  }

  /** The buffer with the first `k` properties taken off. */
  lemma {:induction false} JoinedRest(props: seq<Bytes>, k: nat, rest: Bytes) returns (tail: Bytes)
    requires k <= |props|
    ensures Joined(props, |props|) + rest == Joined(props, k) + tail
    ensures k == |props| ==> tail == rest
    ensures k < |props| ==> props[k] <= tail
    decreases |props| - k
  {
    if k == |props| {
      tail := rest;
    } else {
      tail := JoinedRest(props, k + 1, rest);
      tail := props[k] + tail;
    }
  }

  /** What is read at an offset does not depend on what is in front. */
  lemma Shifted(front: Bytes, buf: Bytes)
    requires |buf| >= 16
    ensures var at := |front|;
            && LenAt(front + buf, at) == LenAt(buf, 0) && (IsSpHdr(front + buf, at) <==> IsSpHdr(buf, 0))
            && Extract(front + buf, at) == Extract(buf, 0)
  {
    var at, all := |front|, front + buf;
    assert all[at..at + 8] == buf[0..8] && all[at + 8..at + 12] == buf[8..12] && all[at + 12..at + 16] == buf[12..16];
    if |buf| >= 24 {
      assert all[at + 16..at + 24] == buf[16..24];
      var size := Value(buf[16..24]);
      if |buf| >= 24 + size { assert all[at + 24..at + 24 + size] == buf[24..24 + size]; }
    }
  }

  /** One property of another kind is passed over. */
  lemma PassesOver(front: Bytes, p: Bytes, tail: Bytes)
    requires Foreign(p) && p <= tail && |front| + |tail| < SIZE_LIMIT
    ensures Look(front + tail, |front|) == At(|front|) && After(front + tail, |front|) == |front| + |p|
  {
    Shifted(front, tail);
    assert tail[0..8] == p[0..8] && tail[8..12] == p[8..12] && tail[12..16] == p[12..16];
  }

  lemma StepOver(buf: Bytes, props: seq<Bytes>, rest: Bytes, k: nat)
    requires k < |props| && buf == Joined(props, |props|) + rest && |buf| < SIZE_LIMIT && AllForeign(props)
    ensures Step(buf, Look(buf, |Joined(props, k)|)) == Look(buf, |Joined(props, k + 1)|)
  {
    var tail := JoinedRest(props, k, rest);
    PassesOver(Joined(props, k), props[k], tail);
  }

  lemma {:induction false} WalkOver(buf: Bytes, props: seq<Bytes>, rest: Bytes, k: nat)
    requires k <= |props| && buf == Joined(props, |props|) + rest && |buf| < SIZE_LIMIT && AllForeign(props)
    ensures Walk(buf, k) == Look(buf, |Joined(props, k)|)
  {
    if k > 0 {
      WalkOver(buf, props, rest, k - 1);
      StepOver(buf, props, rest, k - 1);
      WalkNext(buf, k - 1);
    }
  }

  /** The header is found behind any number of other properties. */
  lemma FoundBehind(props: seq<Bytes>, buf: Bytes)
    requires AllForeign(props) && Fits(buf, 0) && IsSpHdr(buf, 0) && Plain(buf, 0)
    requires |Joined(props, |props|)| + |buf| < SIZE_LIMIT
    ensures SpHdr(Joined(props, |props|) + buf) == SpHdr(buf)
  {
    var front, n := Joined(props, |props|), |props|;
    WalkOver(front + buf, props, buf, n);
    Shifted(front, buf);
    assert Look(front + buf, |front|) == Found(|front|);
    JoinedSize(props, n);
    WalkStays(front + buf, n, |front + buf| + 1);
    FirstFound(buf);
  }

  /** Without a header there is none to be found. */
  lemma NoneFound(props: seq<Bytes>)
    requires AllForeign(props) && |Joined(props, |props|)| < SIZE_LIMIT
    ensures SpHdr(Joined(props, |props|)) == Header([])
  {
    var all, n := Joined(props, |props|), |props|;
    assert all == all + [];
    WalkOver(all, props, [], n);
    JoinedSize(props, n);
    WalkStays(all, n, |all| + 1);
  }

  /** So the header also survives when other properties were put in front of it. */
  lemma RoundTripBehind(props: seq<Bytes>, sphdr: Bytes, pad: Bytes, hdrs: Bytes)
    requires AllForeign(props) && |pad| == RoundUp(|sphdr| + 8) - (|sphdr| + 8)
    requires |Joined(props, |props|) + Control(sphdr, pad, hdrs)| < SIZE_LIMIT - 24
    ensures SpHdr(Joined(props, |props|) + Control(sphdr, pad, hdrs)) == Header(sphdr)
  {
    ControlRoundTrip(sphdr, pad, hdrs);
    ControlFits(sphdr, pad, hdrs);
    FoundBehind(props, Control(sphdr, pad, hdrs));
  }

  lemma ControlFits(sphdr: Bytes, pad: Bytes, hdrs: Bytes)
    requires |pad| == RoundUp(|sphdr| + 8) - (|sphdr| + 8) && |Control(sphdr, pad, hdrs)| < SIZE_LIMIT - 24
    ensures var buf := Control(sphdr, pad, hdrs); Fits(buf, 0) && IsSpHdr(buf, 0) && Plain(buf, 0)
  {
    var len := Space(|sphdr| + 8);
    FieldValues(len, |sphdr|);
    AlignedSpace(|sphdr| + 8);
    ControlParts(sphdr, pad, hdrs);
    Slices(Native(len, 8), Native(PROTO_SP, 4), Native(SP_HDR, 4), Native(|sphdr|, 8), sphdr, pad + hdrs);
  }

  /** memcpy into a buffer. */
  method Copy(buf: array<byte>, pos: nat, from: Bytes)
    requires pos + |from| <= buf.Length
    modifies buf
    ensures var was := old(buf[..]); buf[..] == was[..pos] + from + was[pos + |from|..]
  {
    var i := 0;
    while i != |from|
      invariant i <= |from|
      invariant forall k | 0 <= k < buf.Length :: buf[k] == if pos <= k < pos + i then from[k - pos] else old(buf[k])
    {
      buf[pos + i] := from[i];
      i := i + 1;
    }
  }

  method CopyTwo(buf: array<byte>, a: Bytes, pos: nat, b: Bytes)
    requires |a| <= pos && pos + |b| <= buf.Length
    modifies buf
    ensures var was := old(buf[..]); buf[..] == a + was[|a|..pos] + b + was[pos + |b|..]
  {
    Copy(buf, 0, a);
    Copy(buf, pos, b);
  }

  /** The end of nn_recvmsg: nothing is written if the property does not fit, and the properties
      behind it are cut off where the buffer ends. */
  method Fill(ctrl: array<byte>, sphdr: Bytes, hdrs: Bytes)
    modifies ctrl
    ensures ctrl.Length < Space(|sphdr| + 8) ==> ctrl[..] == old(ctrl[..])
    ensures ctrl.Length >= Space(|sphdr| + 8) ==>
              var was, total := old(ctrl[..]), Space(|sphdr| + 8);
              var k := if |hdrs| > ctrl.Length - total then ctrl.Length - total else |hdrs|;
              ctrl[..] == Control(sphdr, was[24 + |sphdr|..total], hdrs[..k]) + was[total + k..]
  {
    var total := Space(|sphdr| + 8);
    if ctrl.Length < total { return; }
    AlignedSpace(|sphdr| + 8);
    var k := if |hdrs| > ctrl.Length - total then ctrl.Length - total else |hdrs|;
    CopyTwo(ctrl, Property(sphdr), total, hdrs[..k]);
  }

  /** What a caller can check in front of a call: whether the search comes to an end. */
  method CheckEnds(buf: Bytes) returns (ends: bool)
    ensures ends <==> !Returns(buf)
  {
    SearchEnds(buf);
    var w := Look(buf, 0);
    for n := 0 to |buf| + 1
      invariant w == Walk(buf, n)
    {
      WalkNext(buf, n);
      w := Step(buf, w);
    }
    return !w.At?;
  }

  /** The search loop of nn_sendmsg, which ends unless it comes back to where it was. */
  method Search(buf: Bytes) returns (cmsg: Option<nat>)
    requires !Returns(buf)
    ensures Walk(buf, |buf| + 1) == if cmsg.Some? then Found(cmsg.value) else Missing
  {
    ghost var n: nat := 0;
    cmsg := if Fits(buf, 0) then Some(0) else None;
    while cmsg.Some? && !IsSpHdr(buf, cmsg.value)
      invariant cmsg.Some? ==> Fits(buf, cmsg.value)
      invariant Walk(buf, n) == Seen(buf, cmsg) && n <= |buf| + 1
      decreases |buf| + 1 - n
    {
      WalkNext(buf, n);
      WalkShort(buf, n);
      var next := After(buf, cmsg.value);
      cmsg := if Fits(buf, next) then Some(next) else None;
      n := n + 1;
    }
    WalkStays(buf, n, |buf| + 1);
  }

  /** What the loop variable stands for. */
  function Seen(buf: Bytes, cmsg: Option<nat>): Stage {
    if cmsg.Some? then Look(buf, cmsg.value) else Missing
  }

  lemma WalkShort(buf: Bytes, n: nat)
    requires !Returns(buf) && Walk(buf, n).At?
    ensures n <= |buf|
  {
    SearchEnds(buf);
    if n > |buf| { WalkStays(buf, |buf| + 1, n); }
  }
}
