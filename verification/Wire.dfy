/** 32-bit numbers in network byte order. */
module Wire {
  import opened Common

  /** nn_getl. */
  function GetL(b: seq<byte>): (v: uint32)
    requires |b| >= 4
  {
    b[0] as int * 0x100_0000 + b[1] as int * 0x1_0000 + b[2] as int * 0x100 + b[3] as int
  }

  /** The four bytes nn_putl writes. */
  function PutL(v: uint32): (b: seq<byte>)
    ensures |b| == 4
  {
    [v / 0x100_0000, (v / 0x1_0000) % 0x100, (v / 0x100) % 0x100, v % 0x100]
  }

  lemma GetPut(v: uint32)
    ensures GetL(PutL(v)) == v
  {
    var a := v / 0x100;
    var b := a / 0x100;
    assert v == a * 0x100 + v % 0x100 && a == b * 0x100 + a % 0x100 && b == b / 0x100 * 0x100 + b % 0x100;
    Quotients(v);
  }

  lemma Quotients(v: nat)
    ensures v / 0x1_0000 == v / 0x100 / 0x100 && v / 0x100_0000 == v / 0x100 / 0x100 / 0x100
  {}

  lemma PutGet(b: seq<byte>)
    requires |b| == 4
    ensures PutL(GetL(b)) == b
  {
    var v := GetL(b);
    assert v / 0x100 == b[0] as int * 0x1_0000 + b[1] as int * 0x100 + b[2] as int;
    assert v / 0x1_0000 == b[0] as int * 0x100 + b[1] as int;
  }

  /** Only the first four bytes count. */
  lemma GetLFirst(b: seq<byte>, c: seq<byte>)
    requires |b| == 4
    ensures GetL(b + c) == GetL(b)
  {}

  /** nn_putl: writes at offset `pos` and nowhere else. */
  method Put(buf: array<byte>, pos: nat, v: uint32)
    requires pos + 4 <= buf.Length
    modifies buf
    ensures buf[..] == old(buf[..pos]) + PutL(v) + old(buf[pos + 4..])
  {
    buf[pos] := v / 0x100_0000;
    buf[pos + 1] := (v / 0x1_0000) % 0x100;
    buf[pos + 2] := (v / 0x100) % 0x100;
    buf[pos + 3] := v % 0x100;
  }
}
