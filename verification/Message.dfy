/** Messages as values: the protocol header and the body. */
module Message {
  import opened Common

  datatype Msg = Msg(sphdr: Bytes, body: Bytes)

  function Size(m: Msg): nat {
    |m.sphdr| + |m.body|
  }

  /** The size of the first `n` messages. */
  function SizeOf(q: seq<Msg>, n: nat): nat
    requires n <= |q|
  {
    if n == 0 then 0 else SizeOf(q, n - 1) + Size(q[n - 1])
  }

  function TotalSize(q: seq<Msg>): nat {
    SizeOf(q, |q|)
  }

  lemma {:induction false} SizeOfPrefix(a: seq<Msg>, b: seq<Msg>, n: nat)
    requires n <= |a|
    ensures SizeOf(a + b, n) == SizeOf(a, n)
  {
    if n > 0 { SizeOfPrefix(a, b, n - 1); }
  }

  lemma {:induction false} SizeOfBehind(a: seq<Msg>, b: seq<Msg>, n: nat)
    requires n <= |b|
    ensures SizeOf(a + b, |a| + n) == TotalSize(a) + SizeOf(b, n)
  {
    if n == 0 { SizeOfPrefix(a, b, |a|); } else { SizeOfBehind(a, b, n - 1); }
  }

  lemma TotalSizeConcat(a: seq<Msg>, b: seq<Msg>)
    ensures TotalSize(a + b) == TotalSize(a) + TotalSize(b)
  {
    SizeOfBehind(a, b, |b|);
  }

  lemma TotalSizeOne(m: Msg)
    ensures TotalSize([m]) == Size(m)
  {
    assert SizeOf([m], 0) == 0;
  }

  lemma TotalSizeHead(q: seq<Msg>)
    requires q != []
    ensures TotalSize(q) == Size(q[0]) + TotalSize(q[1..])
  {
    TotalSizeConcat([q[0]], q[1..]);
    TotalSizeOne(q[0]);
    assert q == [q[0]] + q[1..];
  }
}
