/** n different numbers need n places. */
module Pigeonhole {

  function Below(n: nat): (s: set<nat>)
    ensures forall v: nat :: v in s <==> v < n
  {
    if n == 0 then {} else Below(n - 1) + {n - 1}
  }

  lemma {:induction false} BelowSize(n: nat)
    ensures |Below(n)| == n
  {
    if n > 0 { BelowSize(n - 1); }
  }

  function Elements(a: seq<nat>): (s: set<nat>)
    ensures forall v :: v in a ==> v in s
    ensures |s| <= |a|
  {
    if |a| == 0 then {} else {a[0]} + Elements(a[1..])
  }

  lemma {:induction false} SubsetSize(a: set<nat>, b: set<nat>)
    requires a <= b
    ensures |a| <= |b|
  {
    if a != {} {
      var x :| x in a;
      SubsetSize(a - {x}, b - {x});
    }
  }

  /** A list that contains every number below n has at least n elements. */
  lemma AllBelow(a: seq<nat>, n: nat)
    requires forall v: nat :: v < n ==> v in a
    ensures n <= |a|
  {
    BelowSize(n);
    SubsetSize(Below(n), Elements(a));
  }
}
