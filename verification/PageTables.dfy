/** Four-level page tables as the hardware reads them (Intel 64 and IA-32 Architectures
    Software Developer's Manual, Volume 3A, sections 4.5 and 4.6), and the tree that
    map_page keeps inside physical frames. */
module PageTables {

  const PAGE: nat := 4096
  const ENTRIES: nat := 512
  const W36: nat := 0x10_0000_0000
  const W40: nat := 0x100_0000_0000

  // ---------------------------------------------------------------- entries

  predicate Present(e: nat) { e % 2 == 1 }
  predicate Writable(e: nat) { e / 2 % 2 == 1 }
  predicate User(e: nat) { e / 4 % 2 == 1 }
  predicate WriteThrough(e: nat) { e / 8 % 2 == 1 }
  predicate CacheDisabled(e: nat) { e / 16 % 2 == 1 }
  // In an upper entry: the entry maps a large page instead of pointing to a table.
  predicate PageSize(e: nat) { e / 128 % 2 == 1 }
  function Frame(e: nat): nat { e / PAGE % W40 }

  function Bit(b: bool, weight: nat): nat { if b then weight else 0 }

  /** An entry that points to a table: present, user, and a 40-bit address field. */
  function DirEntry(rw: bool, table: nat): nat {
    1 + Bit(rw, 2) + 4 + table / PAGE % W40 * PAGE
  }

  /** An entry that maps a page: the flags, or'd with the page-aligned address. */
  function LeafEntry(phys: nat, rw: bool, writeThrough: bool, disableCache: bool, user: bool): nat {
    1 + Bit(rw, 2) + Bit(user, 4) + Bit(writeThrough, 8) + Bit(disableCache, 16) + (phys - phys % PAGE)
  }

  lemma DirEntryFields(rw: bool, table: nat)
    ensures var e := DirEntry(rw, table);
      Present(e) && (Writable(e) <==> rw) && User(e) && !PageSize(e) && Frame(e) == table / PAGE % W40
  {
  }

  lemma DivideBy2(a: nat, t: nat)
    ensures (a + 2 * t) / 2 == a / 2 + t && (a + 2 * t) % 2 == a % 2
  {
  }

  lemma DivideBy4(a: nat, t: nat)
    ensures (a + 4 * t) / 4 == a / 4 + t
  {
  }

  lemma DivideBy8(a: nat, t: nat)
    ensures (a + 8 * t) / 8 == a / 8 + t
  {
  }

  lemma DivideBy16(a: nat, t: nat)
    ensures (a + 16 * t) / 16 == a / 16 + t
  {
  }

  /** Flags below 32 are not disturbed by an address above them. */
  lemma LowBits(flags: nat, t: nat)
    ensures var e := flags + 32 * t;
      && e % 2 == flags % 2 && e / 2 % 2 == flags / 2 % 2 && e / 4 % 2 == flags / 4 % 2
      && e / 8 % 2 == flags / 8 % 2 && e / 16 % 2 == flags / 16 % 2
  {
    DivideBy2(flags, 16 * t);
    DivideBy4(flags, 8 * t);
    DivideBy8(flags, 4 * t);
    DivideBy16(flags, 2 * t);
    DivideBy2(flags / 2, 8 * t);
    DivideBy2(flags / 4, 4 * t);
    DivideBy2(flags / 8, 2 * t);
    DivideBy2(flags / 16, t);
  }

  lemma FlagBits(rw: bool, wt: bool, cd: bool, user: bool)
    ensures var flags := 1 + Bit(rw, 2) + Bit(user, 4) + Bit(wt, 8) + Bit(cd, 16);
      && flags < 32 && flags % 2 == 1 && flags / 2 % 2 == Bit(rw, 1) && flags / 4 % 2 == Bit(user, 1)
      && flags / 8 % 2 == Bit(wt, 1) && flags / 16 % 2 == Bit(cd, 1)
  {
  }

  lemma LeafEntryFields(phys: nat, rw: bool, wt: bool, cd: bool, user: bool)
    ensures var e := LeafEntry(phys, rw, wt, cd, user);
      && Present(e) && (Writable(e) <==> rw) && (User(e) <==> user)
      && (WriteThrough(e) <==> wt) && (CacheDisabled(e) <==> cd)
      && Frame(e) == phys / PAGE % W40
  {
    var flags := 1 + Bit(rw, 2) + Bit(user, 4) + Bit(wt, 8) + Bit(cd, 16);
    assert LeafEntry(phys, rw, wt, cd, user) == flags + 32 * (phys / PAGE * 128);
    LowBits(flags, phys / PAGE * 128);
    FlagBits(rw, wt, cd, user);
  }

  // ---------------------------------------------------------------- addresses

  /** The four table indices of a virtual address, pml4 first; nine bits each, so the
      shifts by 27, 18 and 9 are three, two and one divisions by 512. */
  function Path(virt: nat): (p: seq<nat>)
    ensures |p| == 4 && forall i :: 0 <= i < 4 ==> p[i] < ENTRIES
  {
    var n := virt / PAGE;
    [n / ENTRIES / ENTRIES / ENTRIES % ENTRIES, n / ENTRIES / ENTRIES % ENTRIES, n / ENTRIES % ENTRIES, n % ENTRIES]
  }

  /** Bits 12 to 47 of a virtual address. */
  function VirtualPage(virt: nat): nat { virt / PAGE % W36 }

  lemma Digits2(n: nat)
    ensures n % 0x4_0000 == n % ENTRIES + ENTRIES * (n / ENTRIES % ENTRIES)
  {
  }

  lemma Digits3(n: nat)
    ensures n % 0x800_0000 == n % ENTRIES + ENTRIES * (n / ENTRIES % 0x4_0000)
  {
  }

  lemma Digits4(n: nat)
    ensures n % W36 == n % ENTRIES + ENTRIES * (n / ENTRIES % 0x800_0000)
  {
  }

  function Number(p: seq<nat>): nat
    requires |p| == 4
  {
    p[3] + ENTRIES * (p[2] + ENTRIES * (p[1] + ENTRIES * p[0]))
  }

  lemma PathNumber(v: nat)
    ensures VirtualPage(v) == Number(Path(v))
  {
    var n := v / PAGE;
    Digits4(n);
    Digits3(n / ENTRIES);
    Digits2(n / ENTRIES / ENTRIES);
  }

  lemma DigitStep(a: nat, b: nat, x: nat, y: nat)
    requires a < ENTRIES && b < ENTRIES && a + ENTRIES * x == b + ENTRIES * y
    ensures a == b && x == y
  {
  }

  lemma NumberInjective(p: seq<nat>, q: seq<nat>)
    requires |p| == |q| == 4 && Number(p) == Number(q)
    requires forall i :: 0 <= i < 4 ==> p[i] < ENTRIES && q[i] < ENTRIES
    ensures p == q
  {
    DigitStep(p[3], q[3], p[2] + ENTRIES * (p[1] + ENTRIES * p[0]), q[2] + ENTRIES * (q[1] + ENTRIES * q[0]));
    DigitStep(p[2], q[2], p[1] + ENTRIES * p[0], q[1] + ENTRIES * q[0]);
    DigitStep(p[1], q[1], p[0], q[0]);
  }

  /** Two addresses take the same path exactly when they agree on bits 12 to 47. */
  lemma PathExactly(v: nat, w: nat)
    ensures Path(v) == Path(w) <==> VirtualPage(v) == VirtualPage(w)
  {
    PathNumber(v);
    PathNumber(w);
    if VirtualPage(v) == VirtualPage(w) {
      NumberInjective(Path(v), Path(w));
    }
  }
}
