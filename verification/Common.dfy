/** Types shared by every component. */
module Common {
  datatype Option<+T> = None | Some(value: T)

  type byte = x: int | 0 <= x < 256
  type Bytes = seq<byte>

  const TWO_31 := 0x8000_0000
  const TWO_32 := 0x1_0000_0000

  /** The range of the source's `uint32_t`. */
  type uint32 = x: int | 0 <= x < TWO_32

  /** `++` on a `uint32_t`. */
  function Inc32(x: nat): nat {
    if x + 1 == TWO_32 then 0 else x + 1
  }

  /** `--` on a `uint32_t`. */
  function Dec32(x: nat): nat {
    if x == 0 then TWO_32 - 1 else x - 1
  }

  /** `x * 2` on a `uint32_t`. */
  function Double32(x: nat): nat {
    if x < TWO_31 then 2 * x else 2 * x - TWO_32
  }

  /** No element occurs twice. */
  ghost predicate Distinct<T>(s: seq<T>) {
    forall i, j | 0 <= i < j < |s| :: s[i] != s[j]
  }

  /** There are only n different numbers below n. */
  lemma {:induction false} DistinctBound(s: seq<nat>, n: nat)
    requires Distinct(s) && forall i | 0 <= i < |s| :: s[i] < n
    ensures |s| <= n
    decreases n
  {
    if s != [] {
      assert s[0] < n;
      if n - 1 in s {
        var i :| 0 <= i < |s| && s[i] == n - 1;
        DistinctBound(s[..i] + s[i + 1..], n - 1);
      } else {
        DistinctBound(s, n - 1);
      }
    }
  }
}
