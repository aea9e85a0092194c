/** The frame bitmap: one bit per 4 KiB frame, set when the frame is in use. */
module FrameBits {

  /** Bit k of a byte, as is_frame_used tests it: the byte is widened first, so
      position 8 is not an error but a bit that is never set. */
  predicate BitSet(b: bv8, k: nat)
    requires k <= 8
  {
    (b as bv16) & ((1 as bv16) << k) != 0
  }

  lemma Powers(k: nat)
    requires k <= 8
    ensures (1 as bv16) << k == [1, 2, 4, 8, 16, 32, 64, 128, 256][k]
    ensures k < 8 ==> (1 as bv8) << k == [1, 2, 4, 8, 16, 32, 64, 128][k]
  {
  }

  lemma PhantomBit(b: bv8)
    ensures !BitSet(b, 8)
  {
    Powers(8);
  }

  function Marked(b: bv8, k: nat): bv8
    requires k < 8
  {
    b | ((1 as bv8) << k)
  }

  function Cleared(b: bv8, k: nat): bv8
    requires k < 8
  {
    b & !((1 as bv8) << k)
  }

  lemma OneBit(k: nat, j: nat)
    requires k < 8 && j < 8
    ensures ((1 as bv8) << k) as bv16 == (1 as bv16) << k
    ensures ((1 as bv16) << k) & ((1 as bv16) << j) == if j == k then (1 as bv16) << k else 0
    ensures (1 as bv16) << k != 0
  {
    Powers(k);
    Powers(j);
  }

  lemma OrMasked(b: bv8, m: bv8, n: bv16)
    ensures (b | m) as bv16 & n != 0 <==> b as bv16 & n != 0 || m as bv16 & n != 0
  {
  }

  lemma AndNotMasked(b: bv8, m: bv8, n: bv16)
    ensures m as bv16 & n == 0 ==> (b & !m) as bv16 & n == b as bv16 & n
    ensures m as bv16 == n ==> (b & !m) as bv16 & n == 0
  {
  }

  lemma MarkedBit(b: bv8, k: nat, j: nat)
    requires k < 8 && j < 8
    ensures BitSet(Marked(b, k), j) <==> j == k || BitSet(b, j)
  {
    OneBit(k, j);
    OrMasked(b, (1 as bv8) << k, (1 as bv16) << j);
  }

  lemma ClearedBit(b: bv8, k: nat, j: nat)
    requires k < 8 && j < 8
    ensures BitSet(Cleared(b, k), j) <==> j != k && BitSet(b, j)
  {
    OneBit(k, j);
    AndNotMasked(b, (1 as bv8) << k, (1 as bv16) << j);
  }

  lemma ByteDetermined(a: bv8, b: bv8)
    requires forall k :: 0 <= k < 8 ==> (BitSet(a, k) <==> BitSet(b, k))
    ensures a == b
  {
    Powers(0); Powers(1); Powers(2); Powers(3); Powers(4); Powers(5); Powers(6); Powers(7);
    assert BitSet(a, 0) <==> BitSet(b, 0);
    assert BitSet(a, 1) <==> BitSet(b, 1);
    assert BitSet(a, 2) <==> BitSet(b, 2);
    assert BitSet(a, 3) <==> BitSet(b, 3);
    assert BitSet(a, 4) <==> BitSet(b, 4);
    assert BitSet(a, 5) <==> BitSet(b, 5);
    assert BitSet(a, 6) <==> BitSet(b, 6);
    assert BitSet(a, 7) <==> BitSet(b, 7);
  }

  // ---------------------------------------------------------------- frames

  function ByteUsed(b: bv8): (u: seq<bool>)
    ensures |u| == 8 && forall k :: 0 <= k < 8 ==> u[k] == BitSet(b, k)
  {
    [BitSet(b, 0), BitSet(b, 1), BitSet(b, 2), BitSet(b, 3), BitSet(b, 4), BitSet(b, 5), BitSet(b, 6), BitSet(b, 7)]
  }

  /** Used(m)[f] says whether frame f is in use, for all frames that bytes m describe. */
  function Used(m: seq<bv8>): (u: seq<bool>)
    ensures |u| == 8 * |m|
  {
    if |m| == 0 then []
    else ByteUsed(m[0]) + Used(m[1..])
  }

  lemma {:induction false} UsedAt(m: seq<bv8>, f: nat)
    requires f < 8 * |m|
    ensures Used(m)[f] == BitSet(m[f / 8], f % 8)
    decreases f
  {
    if f >= 8 {
      UsedAt(m[1..], f - 8);
      assert (f - 8) / 8 == f / 8 - 1 && (f - 8) % 8 == f % 8;
    }
  }

  lemma UsedMarked(m: seq<bv8>, f: nat)
    requires f < 8 * |m|
    ensures Used(m[f / 8 := Marked(m[f / 8], f % 8)]) == Used(m)[f := true]
  {
    var r := m[f / 8 := Marked(m[f / 8], f % 8)];
    forall g | 0 <= g < 8 * |m|
      ensures Used(r)[g] == Used(m)[f := true][g]
    {
      UsedAt(m, g);
      UsedAt(r, g);
      MarkedBit(m[f / 8], f % 8, g % 8);
    }
  }

  lemma UsedCleared(m: seq<bv8>, f: nat)
    requires f < 8 * |m|
    ensures Used(m[f / 8 := Cleared(m[f / 8], f % 8)]) == Used(m)[f := false]
  {
    var r := m[f / 8 := Cleared(m[f / 8], f % 8)];
    forall g | 0 <= g < 8 * |m|
      ensures Used(r)[g] == Used(m)[f := false][g]
    {
      UsedAt(m, g);
      UsedAt(r, g);
      ClearedBit(m[f / 8], f % 8, g % 8);
    }
  }

  /** The bits determine the bytes. */
  lemma UsedInjective(m: seq<bv8>, n: seq<bv8>)
    requires Used(m) == Used(n)
    ensures m == n
  {
    assert |Used(m)| == |Used(n)|;
    forall i | 0 <= i < |m|
      ensures m[i] == n[i]
    {
      forall k | 0 <= k < 8
        ensures BitSet(m[i], k) <==> BitSet(n[i], k)
      {
        UsedAt(m, 8 * i + k);
        UsedAt(n, 8 * i + k);
        assert (8 * i + k) / 8 == i && (8 * i + k) % 8 == k;
      }
      ByteDetermined(m[i], n[i]);
    }
  }
}
