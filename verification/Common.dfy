/** Optional results and first positions. */
module Common {
  datatype Option<T> = None | Some(value: T)

  /** First position of x, the length when it does not occur. */
  function First<T(==)>(s: seq<T>, x: T): (i: nat)
    ensures i <= |s| && (i < |s| ==> s[i] == x) && forall j :: 0 <= j < i ==> s[j] != x
  {
    if |s| == 0 || s[0] == x then 0 else First(s[1..], x) + 1
  }

  /** First position of an element with that key. */
  function FirstBy<T, K(==)>(s: seq<T>, key: T -> K, k: K): (i: nat)
    ensures i <= |s| && (i < |s| ==> key(s[i]) == k) && forall j :: 0 <= j < i ==> key(s[j]) != k
  {
    if |s| == 0 || key(s[0]) == k then 0 else FirstBy(s[1..], key, k) + 1
  }
}

/** 64-bit arithmetic: sums and products are reduced modulo W64. */
module Words {
  const W63: nat := 0x8000_0000_0000_0000
  const W64: nat := 0x1_0000_0000_0000_0000

  type U64 = n: nat | n < W64

  /** The value of a 64-bit pattern read as int64_t. */
  function Signed(x: int): int {
    var u := x % W64;
    if u < W63 then u else u - W64
  }
}
