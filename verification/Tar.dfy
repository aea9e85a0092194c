/** Octal numbers in archive headers and the walk over the headers. */
module Tar {
  import opened Common
  import opened Words
  import Paths

  const ZERO: nat := 48  // '0'

  type Byte = b: nat | b < 256

  function Pow8(n: nat): (p: nat)
    ensures p > 0
  {
    if n == 0 then 1 else 8 * Pow8(n - 1)
  }

  /** The first n bytes read as octal digits; a byte below '0' counts negative. */
  function Value(s: seq<Byte>, n: nat): int
    requires n <= |s|
  {
    if n == 0 then 0 else 8 * Value(s, n - 1) + (s[n - 1] - ZERO)
  }

  lemma MulDistributes(x: int, y: int, p: int)
    ensures 8 * (x + y * p) == 8 * x + y * (8 * p)
  {
  }

  /** The byte at position i of n weighs 8 to the power n - 1 - i: the first digit is the highest. */
  lemma {:induction false} DigitWeight(s: seq<Byte>, n: nat, i: nat, b: Byte)
    requires i < n <= |s|
    ensures Value(s[i := b], n) == Value(s, n) + (b - s[i]) * Pow8(n - 1 - i)
    decreases n
  {
    if i < n - 1 {
      DigitWeight(s, n - 1, i, b);
      MulDistributes(Value(s, n - 1), b - s[i], Pow8(n - 2 - i));
    } else {
      ValuePrefix(s[i := b], s, i);
    }
  }

  // ---------------------------------------------------------------- parse_size

  lemma Pow8Table()
    ensures Pow8(10) == 0x4000_0000 && Pow8(11) == 0x2_0000_0000
    ensures Pow8(21) == 0x8000_0000_0000_0000 && Pow8(22) > W64
  {
    assert Pow8(5) == 0x8000;
    assert Pow8(10) == 0x4000_0000;
    assert Pow8(15) == 0x2000_0000_0000;
    assert Pow8(20) == 0x1000_0000_0000_0000;
  }

  lemma Wrap(x: int, y: int)
    ensures (x % W64 + y) % W64 == (x + y) % W64
  {
  }

  /** Eleven digits from the right, in 64-bit arithmetic. */
  method ParseSize(input: seq<Byte>) returns (size: nat)
    requires |input| == 12
    ensures size == Value(input, 11) % W64
  {
    size := 0;
    var count := 1;
    var i := 11;
    ghost var exact := 0;
    Pow8Table();
    while i > 0
      invariant 0 <= i <= 11 && count == Pow8(11 - i)
      invariant size == exact % W64 && Value(input, i) * count + exact == Value(input, 11)
    {
      var term := (input[i - 1] - ZERO) * count;
      Wrap(exact, term);
      ExactStep(Value(input, i - 1), input[i - 1] - ZERO, count, exact, Value(input, 11));
      size := (size + term) % W64;
      exact := exact + term;
      i := i - 1;
      count := count * 8;
    }
  }

  lemma ExactStep(v: int, d: int, count: nat, exact: int, total: int)
    requires (8 * v + d) * count + exact == total
    ensures v * (count * 8) + (exact + d * count) == total
  {
    assert (8 * v + d) * count == v * (count * 8) + d * count;
  }

  // ---------------------------------------------------------------- to_octal

  /** Octal digits of n, most significant first. */
  function Digits(n: nat): (s: seq<Byte>)
    ensures |s| > 0 && forall i :: 0 <= i < |s| ==> ZERO <= s[i] < ZERO + 8
  {
    if n < 8 then [ZERO + n] else Digits(n / 8) + [ZERO + n % 8]
  }

  lemma {:induction false} ValuePrefix(s: seq<Byte>, t: seq<Byte>, n: nat)
    requires n <= |s| && n <= |t| && s[..n] == t[..n]
    ensures Value(s, n) == Value(t, n)
    decreases n
  {
    if n > 0 {
      assert s[..n - 1] == s[..n][..n - 1] == t[..n - 1];
      assert s[n - 1] == s[..n][n - 1] == t[n - 1];
      ValuePrefix(s, t, n - 1);
    }
  }

  /** The digits denote the number. */
  lemma {:induction false} DigitsValue(n: nat)
    ensures Value(Digits(n), |Digits(n)|) == n
  {
    if n >= 8 {
      DigitsValue(n / 8);
      assert Digits(n)[..|Digits(n / 8)|] == Digits(n / 8)[..|Digits(n / 8)|];
      ValuePrefix(Digits(n), Digits(n / 8), |Digits(n / 8)|);
    }
  }

  /** The number of digits is the least that can hold the number. */
  lemma {:induction false} DigitsLength(n: nat)
    ensures n < Pow8(|Digits(n)|) && (n > 0 ==> Pow8(|Digits(n)| - 1) <= n)
  {
    if n >= 8 { DigitsLength(n / 8); }
  }

  lemma {:induction false} Pow8Monotone(m: nat, n: nat)
    requires m <= n
    ensures Pow8(m) <= Pow8(n)
  {
    if m < n { Pow8Monotone(m, n - 1); }
  }

  /** A 64-bit number has at most 22 octal digits. */
  lemma DigitsFit(n: nat)
    requires n < W64
    ensures |Digits(n)| <= 22
  {
    DigitsLength(n);
    Pow8Table();
    if |Digits(n)| > 22 { Pow8Monotone(22, |Digits(n)| - 1); }
  }

  function Zeros(n: nat): seq<Byte> { seq(n, _ => 0) }

  method ToOctal(input: nat) returns (buffer: array<Byte>)
    requires input < W64
    ensures fresh(buffer) && buffer.Length == 22 && |Digits(input)| <= 22
    ensures buffer[..] == Digits(input) + Zeros(22 - |Digits(input)|)
  {
    DigitsFit(input);
    buffer := new Byte[22](_ => 0);
    assert buffer[..] == Zeros(22);
    if input == 0 {
      buffer[0] := ZERO;
      return;
    }
    var pos := CountDigits(input);
    FillDigits(buffer, input, pos);
  }

  /** The first loop of to_octal. */
  method CountDigits(input: nat) returns (pos: nat)
    requires 0 < input
    ensures pos == |Digits(input)|
  {
    pos := 0;
    var tmp := input;
    while tmp > 0
      invariant 0 <= tmp && (tmp == 0 ==> pos == |Digits(input)|)
      invariant tmp > 0 ==> pos + |Digits(tmp)| == |Digits(input)|
    {
      tmp := tmp / 8;
      pos := pos + 1;
    }
  }

  lemma LastDigit(digits: seq<Byte>, rest: nat, pos: nat)
    requires pos < |digits| && |Digits(rest)| == pos + 1 && digits[..pos + 1] == Digits(rest)
    ensures digits[pos] == ZERO + rest % 8
    ensures if rest < 8 then pos == 0 else |Digits(rest / 8)| == pos && digits[..pos] == Digits(rest / 8)
  {
    assert digits[pos] == digits[..pos + 1][pos];
    assert digits[..pos] == digits[..pos + 1][..pos];
  }

  /** The second loop of to_octal, from the last digit to the first. */
  method FillDigits(buffer: array<Byte>, input: nat, start: nat)
    requires 0 < input && start == |Digits(input)| <= buffer.Length
    modifies buffer
    ensures buffer[..] == Digits(input) + old(buffer[|Digits(input)|..])
  {
    ghost var digits := Digits(input);
    var pos, rest := start, input;
    while rest > 0
      invariant 0 <= rest && 0 <= pos <= |digits| && pos == (if rest == 0 then 0 else |Digits(rest)|)
      invariant rest > 0 ==> digits[..pos] == Digits(rest)
      invariant forall k :: pos <= k < |digits| ==> buffer[k] == digits[k]
      invariant forall k :: |digits| <= k < buffer.Length ==> buffer[k] == old(buffer[k])
    {
      pos := pos - 1;
      LastDigit(digits, rest, pos);
      buffer[pos] := ZERO + rest % 8;
      rest := rest / 8;
    }
  }

  // ---------------------------------------------------------------- the two together

  lemma {:induction false} ValueBound(s: seq<Byte>, n: nat)
    requires n <= |s| && forall i :: 0 <= i < n ==> ZERO <= s[i] < ZERO + 8
    ensures 0 <= Value(s, n) < Pow8(n)
    decreases n
  {
    if n > 0 { ValueBound(s, n - 1); }
  }

  /** parse_size inverts the 11-digit zero-padded form that the archive format prescribes. */
  lemma {:induction false} ParsePadded(pad: nat, n: nat, tail: Byte)
    requires pad + |Digits(n)| == 11
    ensures var s: seq<Byte> := seq(pad, _ => ZERO) + Digits(n) + [tail];
      |s| == 12 && Value(s, 11) % W64 == n
  {
    var s: seq<Byte> := seq(pad, _ => ZERO) + Digits(n) + [tail];
    LeadingZeros(s, pad);
    ValueShift(s, pad, Digits(n), |Digits(n)|);
    DigitsValue(n);
    DigitsLength(n);
    Pow8Table();
    Pow8Monotone(|Digits(n)|, 11);
  }

  lemma {:induction false} LeadingZeros(s: seq<Byte>, n: nat)
    requires n <= |s| && forall i :: 0 <= i < n ==> s[i] == ZERO
    ensures Value(s, n) == 0
    decreases n
  {
    if n > 0 { LeadingZeros(s, n - 1); }
  }

  lemma {:induction false} ValueShift(s: seq<Byte>, c: nat, t: seq<Byte>, n: nat)
    requires n <= |t| && c + n <= |s| && s[c..c + n] == t[..n] && Value(s, c) == 0
    ensures Value(s, c + n) == Value(t, n)
    decreases n
  {
    if n > 0 {
      assert s[c..c + n - 1] == s[c..c + n][..n - 1] == t[..n - 1];
      assert s[c + n - 1] == s[c..c + n][n - 1] == t[n - 1];
      ValueShift(s, c, t, n - 1);
    }
  }

  /** The size field of a header that create writes: the digits, left aligned. */
  function SizeField(n: nat): (s: seq<Byte>)
    ensures |s| == 12
  {
    (Digits(n) + Zeros(12))[..12]
  }

  lemma Regroup(p: int, q: int)
    ensures (8 * p) * q == 8 * (p * q)
  {
  }

  /** The value of digits followed by m zero bytes, which parse_size takes for digits of value -48. */
  lemma {:induction false} ZeroBytes(s: seq<Byte>, d: nat, m: nat)
    requires d + m <= |s| && forall i :: d <= i < d + m ==> s[i] == 0
    ensures 7 * Value(s, d + m) == Pow8(m) * (7 * Value(s, d) - 48) + 48
    decreases m
  {
    if m > 0 {
      ZeroBytes(s, d, m - 1);
      Regroup(Pow8(m - 1), 7 * Value(s, d) - 48);
    }
  }

  lemma FieldFewDigits(n: nat)
    requires |Digits(n)| < 11
    ensures Value(SizeField(n), 11) % W64 != n
  {
    var d, s := |Digits(n)|, SizeField(n);
    var m := 11 - d;
    ValuePrefix(s, Digits(n), d);
    DigitsValue(n);
    DigitsLength(n);
    ZeroBytes(s, d, m);
    Pow8Monotone(1, m);
    Pow8Monotone(d, 10);
    Pow8Monotone(m, 11);
    Pow8Table();
    NoWrap(n, Pow8(m), Value(s, 11));
  }

  lemma ProductBounds(p: nat, q: int)
    requires 8 <= p <= 0x2_0000_0000 && q != 0
    ensures if q > 0 then 8 * q <= p * q <= 0x2_0000_0000 * q else 0x2_0000_0000 * q <= p * q <= 8 * q
  {
    if q > 0 {
      assert (p - 8) * q >= 0 && (0x2_0000_0000 - p) * q >= 0;
    } else {
      assert (p - 8) * -q >= 0 && (0x2_0000_0000 - p) * -q >= 0;
    }
  }

  lemma NoWrap(n: nat, p: nat, v: int)
    requires n < 0x4000_0000 && 8 <= p <= 0x2_0000_0000 && 7 * v == p * (7 * n - 48) + 48
    ensures v % W64 != n
  {
    ProductBounds(p, 7 * n - 48);
    assert v != n;
    assert v % W64 == if v >= 0 then v else v + W64;
  }

  lemma FieldManyDigits(n: nat)
    requires |Digits(n)| > 11
    ensures Value(SizeField(n), 11) % W64 != n
  {
    ValuePrefix(SizeField(n), Digits(n), 11);
    ValueBound(Digits(n), 11);
    DigitsLength(n);
    Pow8Monotone(11, |Digits(n)| - 1);
    Pow8Table();
  }

  /** The size that create writes reads back exactly for numbers of eleven octal digits. */
  lemma SizeFieldExactly(n: nat)
    ensures Value(SizeField(n), 11) % W64 == n <==> Pow8(10) <= n < Pow8(11)
  {
    var d := |Digits(n)|;
    DigitsLength(n);
    Pow8Table();
    if d < 11 {
      FieldFewDigits(n);
      Pow8Monotone(d, 10);
    } else if d > 11 {
      FieldManyDigits(n);
      Pow8Monotone(11, d - 1);
    } else {
      ValuePrefix(SizeField(n), Digits(n), 11);
      DigitsValue(n);
    }
  }

  // ---------------------------------------------------------------- the header walk

  /** One 512-byte block seen as a header; an empty name ends the archive. */
  datatype Block = Block(name: Paths.CString, sizeField: Field)

  type Field = s: seq<Byte> | |s| == 12 witness seq(12, _ => 0)

  type Archive = seq<Block>

  function Size(b: Block): nat { Value(b.sizeField, 11) % W64 }

  /** Blocks from one header to the next: the header and the file, rounded up. */
  function Stride(size: nat): nat { 1 + (size + 511) / 512 }

  /** Position of header i when each header is reached from the one before it. */
  function Position(a: Archive, i: nat): nat {
    if i == 0 then 0
    else
      var p := Position(a, i - 1);
      if p < |a| then p + Stride(Size(a[p])) else p
  }

  /** One forward pass over the headers. */
  function Pass(a: Archive, p: nat): seq<nat>
    decreases |a| - p
  {
    if p >= |a| || a[p].name == "" then [] else [p] + Pass(a, p + Stride(Size(a[p])))
  }

  /** The walk meets an empty name, at header t, before it leaves the archive. */
  ghost predicate Terminated(a: Archive, t: nat) {
    && (forall i :: 0 <= i <= t ==> Position(a, i) < |a|)
    && a[Position(a, t)].name == ""
  }

  // ---------------------------------------------------------------- archives as they are written

  /** A file in the archive: its header block and the blocks of its data. */
  datatype Member = Member(header: Block, data: seq<Block>)

  /** The data takes the least number of blocks that can hold it. */
  ghost predicate Packed(f: Member) {
    && f.header.name != ""
    && Size(f.header) <= 512 * |f.data|
    && forall m: nat :: Size(f.header) <= 512 * m ==> |f.data| <= m
  }

  function Image(files: seq<Member>): seq<Block> {
    if |files| == 0 then [] else Image(files[..|files| - 1]) + [Last(files).header] + Last(files).data
  }

  function Last(files: seq<Member>): Member
    requires 0 < |files|
  {
    files[|files| - 1]
  }

  /** The archive is the files one after another, and from there on a block with an empty name and
      whatever follows. */
  ghost predicate Written(a: Archive, files: seq<Member>) {
    var n := |Image(files)|;
    (forall f <- files :: Packed(f)) && n < |a| && a[..n] == Image(files) && a[n].name == ""
  }

  /** Where the header of file i was put: behind the files before it. */
  function Place(files: seq<Member>, i: nat): nat
    requires i <= |files|
  {
    |Image(files[..i])|
  }

  lemma {:induction false} ImagePrefix(files: seq<Member>, i: nat)
    requires i <= |files|
    ensures Place(files, i) <= |Image(files)| && Image(files)[..Place(files, i)] == Image(files[..i])
    decreases |files|
  {
    if i < |files| {
      var front := files[..|files| - 1];
      ImagePrefix(front, i);
      assert front[..i] == files[..i];
    } else {
      assert files[..i] == files;
    }
  }

  /** The block at the place of file i is its header, and the next place follows its data. */
  lemma PlaceNext(files: seq<Member>, i: nat)
    requires i < |files|
    ensures Place(files, i + 1) == Place(files, i) + 1 + |files[i].data| <= |Image(files)|
    ensures Image(files)[Place(files, i)] == files[i].header
  {
    assert files[..i + 1][..i] == files[..i];
    ImagePrefix(files, i + 1);
    assert Image(files)[Place(files, i)] == Image(files[..i + 1])[Place(files, i)];
  }

  /** The stride is the header block and the least number of blocks for the file. */
  lemma StridePacked(f: Member)
    requires Packed(f)
    ensures Stride(Size(f.header)) == 1 + |f.data|
  {
    var m := (Size(f.header) + 511) / 512;
    assert Size(f.header) <= 512 * m;
  }

  /** The walk meets exactly the headers that were written, and then the empty name. */
  lemma {:induction false} WalkMeetsHeaders(a: Archive, files: seq<Member>, i: nat)
    requires Written(a, files) && i <= |files|
    ensures Position(a, i) == Place(files, i) <= |Image(files)| < |a|
    ensures a[Position(a, i)] == if i < |files| then files[i].header else a[|Image(files)|]
  {
    ImagePrefix(files, i);
    if i > 0 {
      WalkMeetsHeaders(a, files, i - 1);
      PlaceNext(files, i - 1);
      StridePacked(files[i - 1]);
    }
    if i < |files| {
      PlaceNext(files, i);
      assert a[Place(files, i)] == a[..|Image(files)|][Place(files, i)];
    } else {
      assert files[..i] == files;
    }
  }

  lemma HeadersWritten(a: Archive, i: nat)
    ensures forall files {:trigger Written(a, files)} :: Written(a, files) && i <= |files| ==>
      Position(a, i) == |Image(files[..i])| < |a| && (a[Position(a, i)].name == "" <==> i == |files|)
  {
    forall files | Written(a, files) && i <= |files|
      ensures Position(a, i) == |Image(files[..i])| < |a| && (a[Position(a, i)].name == "" <==> i == |files|)
    {
      WalkMeetsHeaders(a, files, i);
      if i < |files| { assert Packed(files[i]); }
    }
  }

  lemma WrittenTerminated(a: Archive, files: seq<Member>)
    requires Written(a, files)
    ensures Terminated(a, |files|)
  {
    forall i | 0 <= i <= |files|
      ensures Position(a, i) < |a|
    {
      WalkMeetsHeaders(a, files, i);
    }
    WalkMeetsHeaders(a, files, |files|);
  }

  /** One pass from header i on visits the places of the files from i on. */
  lemma {:induction false} PassVisits(a: Archive, files: seq<Member>, i: nat)
    requires Written(a, files) && i <= |files|
    ensures Place(files, i) < |a| && |Pass(a, Place(files, i))| == |files| - i
    ensures forall j :: i <= j < |files| ==> Pass(a, Place(files, i))[j - i] == Place(files, j)
    decreases |files| - i
  {
    WalkMeetsHeaders(a, files, i);
    if i < |files| {
      PlaceNext(files, i);
      StridePacked(files[i]);
      PassVisits(a, files, i + 1);
    }
  }

  /** read_header starts over from the beginning every time. */
  method ReadHeader(a: Archive, idx: nat) returns (r: Option<nat>)
    requires forall i :: 0 <= i <= idx ==> Position(a, i) < |a|
    ensures r == if a[Position(a, idx)].name == "" then None else Some(Position(a, idx))
    ensures forall files :: Written(a, files) && idx <= |files| ==>
      r == if idx < |files| then Some(|Image(files[..idx])|) else None
  {
    var curAddr, curIdx := 0, 0;
    while curIdx != idx
      invariant curIdx <= idx && curAddr == Position(a, curIdx) * 512
      decreases idx - curIdx
    {
      assert Position(a, curIdx) < |a|;
      var size := ParseSize(a[curAddr / 512].sizeField);
      curAddr := curAddr + (size / 512 + 1) * 512;
      if size % 512 != 0 {
        curAddr := curAddr + 512;
      }
      curIdx := curIdx + 1;
    }
    var p := curAddr / 512;
    HeadersWritten(a, idx);
    if a[p].name == "" {
      return None;
    }
    return Some(p);
  }

  /** The first loop of mount visits the headers of one forward pass, in that order. */
  method CollectHeaders(a: Archive, ghost t: nat) returns (headers: seq<nat>)
    requires Terminated(a, t)
    ensures headers == Pass(a, 0)
    ensures forall files :: Written(a, files) ==>
      |headers| == |files| && forall i :: 0 <= i < |files| ==> headers[i] == |Image(files[..i])|
  {
    headers := [];
    var idx := 0;
    var cur := ReadHeader(a, idx);
    idx := idx + 1;
    while cur.Some?
      invariant 0 < idx <= t + 1
      invariant cur == if a[Position(a, idx - 1)].name == "" then None else Some(Position(a, idx - 1))
      invariant headers + Pass(a, Position(a, idx - 1)) == Pass(a, 0)
      decreases t + 1 - idx
    {
      PassStep(a, headers, Position(a, idx - 1));
      headers := headers + [cur.value];
      assert idx - 1 < t;
      cur := ReadHeader(a, idx);
      idx := idx + 1;
    }
    assert headers + [] == headers;
    forall files | Written(a, files)
      ensures |headers| == |files| && forall i :: 0 <= i < |files| ==> headers[i] == Place(files, i)
    {
      PassVisits(a, files, 0);
    }
  }

  lemma PassStep(a: Archive, h: seq<nat>, p: nat)
    requires p < |a| && a[p].name != ""
    ensures h + Pass(a, p) == h + [p] + Pass(a, p + Stride(Size(a[p])))
  {
  }
}
