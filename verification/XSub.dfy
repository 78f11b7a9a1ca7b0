/** The receive filter of a raw SUB socket. */
module XSub {
  import opened Common
  import opened TrieNode
  import opened TrieMatch
  import Trie

  /** A pulled message: its body, and what memory reads as from the start of the body on. */
  datatype Packet = Packet(body: Bytes, mem: Memory)

  /** Number of packets in front of the first one the filter lets through. */
  ghost function Rejected(t: Option<Node>, inbound: seq<Packet>): (k: nat)
    ensures k <= |inbound|
    ensures forall j | 0 <= j < k :: !Match(t, inbound[j].mem, 0, |inbound[j].body|)
    ensures k < |inbound| ==> Match(t, inbound[k].mem, 0, |inbound[k].body|)
  {
    if inbound == [] || Match(t, inbound[0].mem, 0, |inbound[0].body|) then 0 else
    var r := Rejected(t, inbound[1..]);
    assert forall j | 0 < j < 1 + r :: inbound[j] == inbound[1..][j - 1];
    1 + r
  }

  class XSub {
    const trie: Trie.Trie
    /** What the fair queue delivers, in the order in which it does. */
    var inbound: seq<Packet>

    constructor (trie: Trie.Trie, inbound: seq<Packet>)
      ensures this.trie == trie && this.inbound == inbound
    {
      this.trie := trie;
      this.inbound := inbound;
    }

    /** nn_xsub_recv: messages are pulled and thrown away until one matches; none is left for -EAGAIN. */
    method Recv() returns (r: Option<Packet>)
      modifies this
      ensures var k := Rejected(trie.root, old(inbound));
              if k < |old(inbound)| then r == Some(old(inbound)[k]) && inbound == old(inbound)[k + 1..]
              else r == None && inbound == []
    {
      while inbound != []
        invariant |inbound| <= |old(inbound)|
        invariant inbound == old(inbound)[|old(inbound)| - |inbound|..]
        invariant Rejected(trie.root, old(inbound)) ==
                  |old(inbound)| - |inbound| + Rejected(trie.root, inbound)
        decreases |inbound|
      {
        var p := inbound[0];
        var rc := trie.Match(p.mem, |p.body|);
        inbound := inbound[1..];
        if rc == 1 { return Some(p); }
      }
      return None;
    }
  }

  /** If no packet makes the match read past its end, the filter returns the first packet that
      has a live subscription as a prefix and throws away only packets that have none. */
  lemma FilterByPrefix(t: Option<Node>, inbound: seq<Packet>)
    requires forall p | p in inbound :: Holds(p.mem, 0, p.body) && !Overreads(t, p.body)
    ensures var k := Rejected(t, inbound);
            && (forall j | 0 <= j < k :: !LivePrefix(t, inbound[j].body))
            && (k < |inbound| ==> LivePrefix(t, inbound[k].body))
  {
    forall j | 0 <= j < |inbound|
      ensures Match(t, inbound[j].mem, 0, |inbound[j].body|) <==> LivePrefix(t, inbound[j].body)
    {
      MatchWithin(t, inbound[j].body, inbound[j].mem);
    }
  }
}
