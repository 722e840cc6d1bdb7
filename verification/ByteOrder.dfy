/**
 Machine-independent loads and stores (low byte first): the portable functions of
 `byte_order_generic.h` and `my_byteorder.h`, the x86 functions of `byte_order_generic_x86.h`, and the
 one specification all of them meet.
 */
module ByteOrder {
  import opened Bits

  type uint16 = x: int | 0 <= x < 0x1_0000
  type uint32 = x: int | 0 <= x < 0x1_0000_0000
  type uint64 = x: int | 0 <= x < 0x1_0000_0000_0000_0000

  // ---------------------------------------------------------------- specification

  /** The number a byte sequence denotes, low byte first. */
  function Le(s: seq<byte>): nat {
    if s == [] then 0 else s[0] + 0x100 * Le(s[1..])
  }

  /** The low `n` bytes of `v`, low byte first. */
  function Image(n: nat, v: nat): (s: seq<byte>)
    ensures |s| == n
  {
    if n == 0 then [] else [U8(v)] + Image(n - 1, v / 0x100)
  }

  /** How many values `n` bytes can hold. */
  function Range(n: nat): (r: nat)
    ensures r >= 1
  {
    if n == 0 then 1 else 0x100 * Range(n - 1)
  }

  lemma {:induction false} LeOfImage(n: nat, v: nat)
    ensures Le(Image(n, v)) == v % Range(n)
  {
    if n > 0 {
      LeOfImage(n - 1, v / 0x100);
      assert Image(n, v)[1..] == Image(n - 1, v / 0x100);
      ModSplit(v, Range(n - 1));
    }
  }

  lemma {:induction false} ModSplit(v: nat, p: nat)
    requires p >= 1
    ensures v % (0x100 * p) == v % 0x100 + 0x100 * (v / 0x100 % p)
  {
    var q, r := v / 0x100 / p, v / 0x100 % p;
    assert v / 0x100 == p * q + r;
    assert v == (0x100 * p) * q + (0x100 * r + v % 0x100);
    ModUnique(v, 0x100 * p, q, 0x100 * r + v % 0x100);
  }

  lemma {:induction false} ImageOfLe(s: seq<byte>)
    ensures Le(s) < Range(|s|) && Image(|s|, Le(s)) == s
  {
    if s != [] {
      ImageOfLe(s[1..]);
      assert Le(s) / 0x100 == Le(s[1..]) && Le(s) % 0x100 == s[0];
      assert s == [s[0]] + s[1..];
    }
  }

  /** A buffer with the bytes at `off` replaced by `p`. */
  function Splice(s: seq<byte>, off: nat, p: seq<byte>): seq<byte>
    requires off + |p| <= |s|
  {
    s[..off] + p + s[off + |p|..]
  }

  lemma {:induction false} SpliceReadsBack(s: seq<byte>, off: nat, p: seq<byte>)
    requires off + |p| <= |s|
    ensures |Splice(s, off, p)| == |s| && Splice(s, off, p)[off..off + |p|] == p
    ensures forall i :: 0 <= i < |s| && !(off <= i < off + |p|) ==> Splice(s, off, p)[i] == s[i]
  {
  }

  /** Storing two pieces side by side stores their concatenation. */
  lemma {:induction false} SpliceTwice(s: seq<byte>, off: nat, p: seq<byte>, q: seq<byte>)
    requires off + |p| + |q| <= |s|
    ensures |Splice(s, off, p)| == |s|
    ensures Splice(Splice(s, off, p), off + |p|, q) == Splice(s, off, p + q)
  {
  }

  // ---------------------------------------------------------------- portable loads

  function Uint2Korr(A: seq<byte>): uint16
    requires |A| >= 2
  {
    U16(A[0] + A[1] as int * 0x100)
  }

  function Sint2Korr(A: seq<byte>): int
    requires |A| >= 2
  {
    Signed(0x1_0000, A[0] + A[1] as int * 0x100)
  }

  function Uint3Korr(A: seq<byte>): uint32
    requires |A| >= 3
  {
    U32(A[0] + U32(A[1] as int * 0x100) + U32(A[2] as int * 0x1_0000))
  }

  /** The bytes or-ed together, with a sign byte 255 on top when bit 7 of the last one is set. */
  function Sint3Bits(a2: byte, a1: byte, a0: byte): nat {
    if And(8, a2, 0x80) != 0
    then Or(32, Or(32, Or(32, U32(0xFF * 0x100_0000), U32(a2 as int * 0x1_0000)), U32(a1 as int * 0x100)), a0)
    else Or(32, Or(32, U32(a2 as int * 0x1_0000), U32(a1 as int * 0x100)), a0)
  }

  function Sint3Korr(A: seq<byte>): int
    requires |A| >= 3
  {
    Signed(0x1_0000_0000, Sint3Bits(A[2], A[1], A[0]))
  }

  /** Four bytes shifted into place as 32-bit words and added. */
  function Word(A: seq<byte>): uint32
    requires |A| == 4
  {
    U32(A[0] + U32(A[1] as int * 0x100) + U32(A[2] as int * 0x1_0000) + U32(A[3] as int * 0x100_0000))
  }

  function Uint4Korr(A: seq<byte>): uint32
    requires |A| >= 4
  {
    Word(A[..4])
  }

  /** The shift of the top byte wraps into the sign bit of the 32-bit int. */
  function Sint4Korr(A: seq<byte>): int
    requires |A| >= 4
  {
    Signed(0x1_0000_0000,
           A[0] + A[1] as int * 0x100 + A[2] as int * 0x1_0000 + Signed(0x1_0000_0000, A[3] as int * 0x100_0000))
  }

  function Uint5Korr(A: seq<byte>): uint64
    requires |A| >= 5
  {
    U64(Word(A[..4])
        + U64(A[4] as int * 0x1_0000_0000))
  }

  function Uint6Korr(A: seq<byte>): uint64
    requires |A| >= 6
  {
    U64(Word(A[..4])
        + U64(A[4] as int * 0x1_0000_0000) + U64(A[5] as int * 0x100_0000_0000))
  }

  function Uint8Korr(A: seq<byte>): uint64
    requires |A| >= 8
  {
    U64(Word(A[..4])
        + U64(Word(A[4..8]) * 0x1_0000_0000))
  }

  function Sint8Korr(A: seq<byte>): int
    requires |A| >= 8
  {
    Signed(0x1_0000_0000_0000_0000, Uint8Korr(A))
  }

  // ---------------------------------------------------------------- x86 loads: the memory word itself

  datatype Endian = Little | Big

  function Reverse(s: seq<byte>): (r: seq<byte>)
    ensures |r| == |s|
  {
    seq(|s|, i requires 0 <= i < |s| => s[|s| - 1 - i])
  }

  /** The bytes of an `n`-byte object of value `v` in the memory of a host. */
  function ObjectBytes(e: Endian, n: nat, v: nat): (s: seq<byte>)
    ensures |s| == n
  {
    match e case Little => Image(n, v) case Big => Reverse(Image(n, v))
  }

  /** The value of the object whose bytes are `s`. */
  function ObjectValue(e: Endian, s: seq<byte>): nat {
    match e case Little => Le(s) case Big => Le(Reverse(s))
  }

  lemma {:induction false} ObjectRoundTrip(e: Endian, n: nat, v: nat)
    ensures ObjectValue(e, ObjectBytes(e, n, v)) == v % Range(n)
  {
    LeOfImage(n, v);
    assert Reverse(Reverse(Image(n, v))) == Image(n, v);
  }

  function X86Load(n: nat, A: seq<byte>): nat
    requires |A| >= n
  {
    ObjectValue(Little, A[..n])
  }

  function X86SignedLoad(n: nat, A: seq<byte>): int
    requires |A| >= n
  {
    Signed(Range(n), X86Load(n, A))
  }

  // ---------------------------------------------------------------- all loads meet the specification

  lemma {:induction false} LeFirst(A: seq<byte>, n: nat)
    requires 1 <= n <= |A|
    ensures Le(A[..n]) == A[0] + 0x100 * Le(A[1..][..n - 1])
  {
    assert A[..n][1..] == A[1..][..n - 1];
  }

  /** The first four bytes, spelled out. */
  lemma {:induction false} LeShort(A: seq<byte>)
    ensures |A| >= 2 ==> Le(A[..2]) == A[0] + 0x100 * (A[1] as int)
    ensures |A| >= 3 ==> Le(A[..3]) == A[0] + 0x100 * (A[1] as int) + 0x1_0000 * (A[2] as int)
    ensures |A| >= 4 ==>
              Le(A[..4]) == A[0] + 0x100 * (A[1] as int) + 0x1_0000 * (A[2] as int) + 0x100_0000 * (A[3] as int)
  {
    forall n | 2 <= n <= 4 && n <= |A|
      ensures Le(A[..n]) == A[0] + 0x100 * (A[1] + 0x100 * Le(A[2..][..n - 2]))
    {
      LeFirst(A, n);
      LeFirst(A[1..], n - 1);
      assert A[1..][1..] == A[2..];
    }
    if |A| >= 3 {
      LeFirst(A[2..], 1);
    }
    if |A| >= 4 {
      LeFirst(A[2..], 2);
      LeFirst(A[3..], 1);
      assert A[2..][1..] == A[3..];
    }
  }

  /** The bytes after the fourth weigh 2^32 and more. */
  lemma {:induction false} LeLong(A: seq<byte>, n: nat)
    requires 4 <= n <= |A|
    ensures Le(A[..n]) == Le(A[..4]) + 0x1_0000_0000 * Le(A[4..][..n - 4])
  {
    LeShort(A);
    LeFirst(A, n);
    LeFirst(A[1..], n - 1);
    LeFirst(A[2..], n - 2);
    LeFirst(A[3..], n - 3);
    assert A[1..][1..] == A[2..] && A[2..][1..] == A[3..] && A[3..][1..] == A[4..];
  }

  lemma {:induction false} WordSum(b0: byte, b1: byte, b2: byte, b3: byte)
    ensures U32(b0 + U32(b1 as int * 0x100) + U32(b2 as int * 0x1_0000) + U32(b3 as int * 0x100_0000))
            == b0 + 0x100 * (b1 as int) + 0x1_0000 * (b2 as int) + 0x100_0000 * (b3 as int)
  {
  }

  lemma {:induction false} WordIsLe(A: seq<byte>)
    requires |A| == 4
    ensures Word(A) == Le(A)
  {
    LeShort(A);
    assert A[..4] == A;
    WordSum(A[0], A[1], A[2], A[3]);
  }

  lemma {:induction false} Load5(A: seq<byte>)
    requires |A| >= 5
    ensures Uint5Korr(A) == Le(A[..5])
  {
    WordIsLe(A[..4]);
    LeLong(A, 5);
    LeFirst(A[4..], 1);
  }

  lemma {:induction false} Load6(A: seq<byte>)
    requires |A| >= 6
    ensures Uint6Korr(A) == Le(A[..6])
  {
    WordIsLe(A[..4]);
    LeLong(A, 6);
    LeShort(A[4..]);
    SixSum(Word(A[..4]), A[4], A[5]);
  }

  lemma {:induction false} SixSum(lo: uint32, b4: byte, b5: byte)
    ensures U64(lo + U64(b4 as int * 0x1_0000_0000) + U64(b5 as int * 0x100_0000_0000))
            == lo + 0x1_0000_0000 * (b4 + 0x100 * (b5 as int))
  {
  }

  lemma {:induction false} ShortSums(b0: byte, b1: byte, b2: byte)
    ensures U16(b0 + b1 as int * 0x100) == b0 + 0x100 * (b1 as int)
    ensures U32(b0 + U32(b1 as int * 0x100) + U32(b2 as int * 0x1_0000))
            == b0 + 0x100 * (b1 as int) + 0x1_0000 * (b2 as int)
  {
  }

  lemma {:induction false} Load8(A: seq<byte>)
    requires |A| >= 8
    ensures Uint8Korr(A) == Le(A[..8])
  {
    WordIsLe(A[..4]);
    WordIsLe(A[4..8]);
    LeLong(A, 8);
    assert A[4..][..4] == A[4..8];
    WideSum(Word(A[..4]), Word(A[4..8]));
  }

  lemma {:induction false} WideSum(lo: uint32, hi: uint32)
    ensures U64(lo + U64(hi as int * 0x1_0000_0000)) == lo + 0x1_0000_0000 * (hi as int)
  {
  }

  lemma {:induction false} ShortLoads(A: seq<byte>)
    ensures |A| >= 2 ==> Uint2Korr(A) == Le(A[..2])
    ensures |A| >= 3 ==> Uint3Korr(A) == Le(A[..3])
    ensures |A| >= 4 ==> Uint4Korr(A) == Le(A[..4])
  {
    LeShort(A);
    if |A| >= 3 {
      ShortSums(A[0], A[1], A[2]);
    }
    if |A| >= 4 {
      WordIsLe(A[..4]);
    }
  }

  /** Every unsigned load is the low-byte-first number of the bytes it reads, and so is the x86 word read. */
  lemma {:induction false} UnsignedLoads(A: seq<byte>)
    ensures |A| >= 2 ==> Uint2Korr(A) == Le(A[..2]) == X86Load(2, A)
    ensures |A| >= 3 ==> Uint3Korr(A) == Le(A[..3])
    ensures |A| >= 4 ==> Uint4Korr(A) == Le(A[..4]) == X86Load(4, A)
    ensures |A| >= 5 ==> Uint5Korr(A) == Le(A[..5])
    ensures |A| >= 6 ==> Uint6Korr(A) == Le(A[..6])
    ensures |A| >= 8 ==> Uint8Korr(A) == Le(A[..8]) == X86Load(8, A)
  {
    ShortLoads(A);
    if |A| >= 5 {
      Load5(A);
    }
    if |A| >= 6 {
      Load6(A);
    }
    if |A| >= 8 {
      Load8(A);
    }
  }

  lemma {:induction false} SignBit(b: byte)
    ensures And(8, b, 0x80) != 0 <==> b >= 0x80
  {
    AndTop(7, b);
  }

  lemma {:induction false} AndTop(k: nat, b: nat)
    requires b < Pow2(k + 1)
    ensures And(k + 1, b, Pow2(k)) == if b >= Pow2(k) then Pow2(k) else 0
  {
    if k > 0 {
      AndTop(k - 1, b / 2);
      assert Pow2(k) / 2 == Pow2(k - 1) && Pow2(k) % 2 == 0;
    } else {
      assert And(1, b, 1) == 2 * And(0, b / 2, 0) + if b % 2 == 1 then 1 else 0;
    }
  }

  lemma {:induction false} OrTop(a: nat, b: nat)
    requires a in {0, 0xFF00_0000} && b < 0x100_0000
    ensures Or(32, a, b) == a + b
  {
    PowersOfTwo();
    OrDisjoint(32, 24, a, b);
  }

  lemma {:induction false} OrMiddle(q: nat, b: nat)
    requires q < 0x1_0000 && b < 0x1_0000
    ensures Or(32, q * 0x1_0000, b) == q * 0x1_0000 + b
  {
    PowersOfTwo();
    OrDisjoint(32, 16, q * 0x1_0000, b);
  }

  lemma {:induction false} OrLow(q: nat, b: nat)
    requires q < 0x100_0000 && b < 0x100
    ensures Or(32, q * 0x100, b) == q * 0x100 + b
  {
    PowersOfTwo();
    OrDisjoint(32, 8, q * 0x100, b);
  }

  /** The bytes `sint3korr` or-s together, the top one 0xFF or absent, have no bit in common. */
  lemma {:induction false} Sint3Ors(top: nat, a2: byte, a1: byte, a0: byte)
    requires top == 0 || top == 0xFF00_0000
    ensures Or(32, top, a2 as int * 0x1_0000) == top + a2 as int * 0x1_0000
    ensures Or(32, Or(32, top + a2 as int * 0x1_0000, a1 as int * 0x100), a0)
            == top + a2 as int * 0x1_0000 + a1 as int * 0x100 + a0
  {
    var q := top / 0x1_0000 + a2;
    assert top + a2 as int * 0x1_0000 == q * 0x1_0000;
    OrTop(top, a2 as int * 0x1_0000);
    OrMiddle(q, a1 as int * 0x100);
    OrLow(q * 0x100 + a1, a0);
  }

  lemma {:induction false} PowersOfTwo()
    ensures Pow2(8) == 0x100 && Pow2(16) == 0x1_0000 && Pow2(24) == 0x100_0000 && Pow2(32) == 0x1_0000_0000
  {
    PowAdd(8, 8);
    PowAdd(16, 8);
    PowAdd(16, 16);
  }

  lemma {:induction false} SignExtend(top: nat, v: nat)
    requires v < 0x100_0000 && top == if v >= 0x80_0000 then 0xFF00_0000 else 0
    ensures Signed(0x1_0000_0000, top + v) == Signed(0x100_0000, v)
  {
  }

  lemma {:induction false} NoWrap(b: byte)
    ensures U32(b as int * 0x100) == b as int * 0x100 && U32(b as int * 0x1_0000) == b as int * 0x1_0000
    ensures U32(0xFF * 0x100_0000) == 0xFF00_0000
  {
  }

  lemma {:induction false} Sint3BitsValue(a2: byte, a1: byte, a0: byte)
    ensures Sint3Bits(a2, a1, a0)
            == (if a2 >= 0x80 then 0xFF00_0000 else 0) + a2 as int * 0x1_0000 + a1 as int * 0x100 + a0
  {
    SignBit(a2);
    NoWrap(a1);
    NoWrap(a2);
    Sint3Ors(if a2 >= 0x80 then 0xFF00_0000 else 0, a2, a1, a0);
  }

  lemma {:induction false} Sint3(A: seq<byte>)
    requires |A| >= 3
    ensures Sint3Korr(A) == Signed(0x100_0000, Le(A[..3]))
  {
    LeShort(A);
    Sint3BitsValue(A[2], A[1], A[0]);
    SignExtend(if A[2] >= 0x80 then 0xFF00_0000 else 0, A[2] as int * 0x1_0000 + A[1] as int * 0x100 + A[0]);
  }

  lemma {:induction false} Sint2(A: seq<byte>)
    requires |A| >= 2
    ensures Sint2Korr(A) == Signed(0x1_0000, Le(A[..2]))
  {
    LeShort(A);
  }

  lemma {:induction false} Sint4(A: seq<byte>)
    requires |A| >= 4
    ensures Sint4Korr(A) == Signed(0x1_0000_0000, Le(A[..4]))
  {
    LeShort(A);
    SignedSum(A[0] + A[1] as int * 0x100 + A[2] as int * 0x1_0000, A[3]);
  }

  /** Every signed load is the two's-complement value of the bytes it reads, the 24-bit one included. */
  lemma {:induction false} SignedLoads(A: seq<byte>)
    ensures |A| >= 2 ==> Sint2Korr(A) == Signed(Range(2), Le(A[..2]))
    ensures |A| >= 3 ==> Sint3Korr(A) == Signed(Range(3), Le(A[..3]))
    ensures |A| >= 4 ==> Sint4Korr(A) == Signed(Range(4), Le(A[..4]))
    ensures |A| >= 8 ==> Sint8Korr(A) == Signed(Range(8), Le(A[..8]))
  {
    Ranges();
    if |A| >= 2 {
      Sint2(A);
    }
    if |A| >= 3 {
      Sint3(A);
    }
    if |A| >= 4 {
      Sint4(A);
    }
    if |A| >= 8 {
      Load8(A);
    }
  }

  /** The signed x86 word reads agree with the portable signed loads. */
  lemma {:induction false} X86SignedLoads(A: seq<byte>)
    ensures |A| >= 2 ==> X86SignedLoad(2, A) == Sint2Korr(A)
    ensures |A| >= 4 ==> X86SignedLoad(4, A) == Sint4Korr(A)
    ensures |A| >= 8 ==> X86SignedLoad(8, A) == Sint8Korr(A)
  {
    SignedLoads(A);
  }

  lemma {:induction false} Ranges()
    ensures Range(2) == 0x1_0000 && Range(3) == 0x100_0000 && Range(4) == 0x1_0000_0000
    ensures Range(5) == 0x100_0000_0000 && Range(6) == 0x1_0000_0000_0000
    ensures Range(8) == 0x1_0000_0000_0000_0000
  {
    assert Range(4) == 0x1_0000_0000;
  }

  lemma {:induction false} SignedSum(low: nat, top: byte)
    requires low < 0x100_0000
    ensures Signed(0x1_0000_0000, low + Signed(0x1_0000_0000, top as int * 0x100_0000))
            == Signed(0x1_0000_0000, low + 0x100_0000 * (top as int))
  {
  }

  /**
   Loading where a value was stored, anywhere in any buffer it fits: the value modulo what the width holds,
   or its two's complement.
   */
  lemma {:induction false} LoadAfterStore(s: seq<byte>, off: nat, n: nat, v: nat)
    requires n in {2, 3, 4, 5, 6, 8} && off + n <= |s|
    ensures var A := Splice(s, off, Image(n, v))[off..];
            && |A| >= n
            && (n == 2 ==> Uint2Korr(A) == X86Load(2, A) == v % Range(2) && Sint2Korr(A) == Signed(Range(2), v))
            && (n == 3 ==> Uint3Korr(A) == v % Range(3) && Sint3Korr(A) == Signed(Range(3), v))
            && (n == 4 ==> Uint4Korr(A) == X86Load(4, A) == v % Range(4) && Sint4Korr(A) == Signed(Range(4), v))
            && (n == 5 ==> Uint5Korr(A) == v % Range(5))
            && (n == 6 ==> Uint6Korr(A) == v % Range(6))
            && (n == 8 ==> Uint8Korr(A) == X86Load(8, A) == v % Range(8) && Sint8Korr(A) == Signed(Range(8), v))
  {
    var A := Splice(s, off, Image(n, v))[off..];
    assert A[..n] == Image(n, v);
    LeOfImage(n, v);
    UnsignedLoads(A);
    SignedLoads(A);
    SignedMod(Range(n), v);
  }

  /** What the bytes of a number weigh, spelled out for every width. */
  lemma {:induction false} LeSpelledOut(A: seq<byte>)
    ensures |A| >= 2 ==> Le(A[..2]) == A[0] + 0x100 * (A[1] as int)
    ensures |A| >= 3 ==> Le(A[..3]) == A[0] + 0x100 * (A[1] as int) + 0x1_0000 * (A[2] as int)
    ensures |A| >= 4 ==>
              Le(A[..4]) == A[0] + 0x100 * (A[1] as int) + 0x1_0000 * (A[2] as int) + 0x100_0000 * (A[3] as int)
    ensures |A| >= 5 ==> Le(A[..5]) == Le(A[..4]) + 0x1_0000_0000 * (A[4] as int)
    ensures |A| >= 6 ==> Le(A[..6]) == Le(A[..5]) + 0x100_0000_0000 * (A[5] as int)
    ensures |A| >= 8 ==>
              Le(A[..8]) == Le(A[..6]) + 0x1_0000_0000_0000 * (A[6] as int) + 0x100_0000_0000_0000 * (A[7] as int)
  {
    LeShort(A);
    if |A| >= 5 {
      LeLong(A, 5);
      LeFirst(A[4..], 1);
      LeShort(A[4..]);
    }
    if |A| >= 6 {
      LeLong(A, 6);
    }
    if |A| >= 8 {
      LeLong(A, 8);
    }
  }

  /** On a big-endian host the first byte of an object is its most significant one. */
  lemma {:induction false} BigEndianValue(s: seq<byte>)
    ensures |s| == 2 ==> ObjectValue(Big, s) == 0x100 * (s[0] as int) + s[1]
    ensures |s| == 4 ==>
              ObjectValue(Big, s)
              == 0x100_0000 * (s[0] as int) + 0x1_0000 * (s[1] as int) + 0x100 * (s[2] as int) + s[3]
    ensures |s| == 8 ==>
              ObjectValue(Big, s) == 0x1_0000_0000 * ObjectValue(Big, s[..4]) + ObjectValue(Big, s[4..])
  {
    var r := Reverse(s);
    LeShort(r);
    if |s| == 2 {
      assert r[..2] == r;
    } else if |s| == 4 {
      assert r[..4] == r;
    } else if |s| == 8 {
      LeLong(r, 8);
      assert r[..8] == r && r[..4] == Reverse(s[4..]) && r[4..][..4] == Reverse(s[..4]);
    }
  }

  /** A signed value stored in two's complement anywhere in a buffer is loaded back, for every signed width. */
  lemma {:induction false} SignedRoundTrip(s: seq<byte>, off: nat, n: nat, v: int)
    requires n in {2, 3, 4, 8} && off + n <= |s| && 0 <= 2 * v + Range(n) < 2 * Range(n)
    ensures var A := Splice(s, off, Image(n, v % Range(n)))[off..];
            && |A| >= n
            && (n == 2 ==> Sint2Korr(A) == v) && (n == 3 ==> Sint3Korr(A) == v)
            && (n == 4 ==> Sint4Korr(A) == v) && (n == 8 ==> Sint8Korr(A) == v)
  {
    LoadAfterStore(s, off, n, v % Range(n));
    Ranges();
    SignedOfResidue(Range(n) / 2, v);
  }

  lemma {:induction false} SignedOfResidue(half: nat, v: int)
    requires half > 0 && 0 <= v + half < 2 * half
    ensures Signed(2 * half, v % (2 * half)) == v
  {
    var m := 2 * half;
    assert v == m * (v / m) + v % m;
    ModUnique(v % m - v, m, -(v / m), 0) by {
      assert m * -(v / m) == -(m * (v / m));
    }
    SignedIs(half, v % m, v);
  }

  lemma {:induction false} SignedMod(m: nat, v: nat)
    requires m > 0
    ensures Signed(m, v % m) == Signed(m, v)
  {
    ModUnique(v % m, m, 0, v % m);
  }

  // ---------------------------------------------------------------- portable stores

  /** The bytes of a word by shifting, as the stores take them. */
  lemma {:induction false} ImageBytes(v: nat)
    ensures Image(2, v) == [U8(v), U8(v / 0x100)]
    ensures Image(3, v) == Image(2, v) + [U8(v / 0x1_0000)]
    ensures Image(4, v) == Image(3, v) + [U8(v / 0x100_0000)]
    ensures Image(5, v) == Image(4, v) + [U8(v / 0x1_0000_0000)]
    ensures Image(6, v) == Image(5, v) + [U8(v / 0x100_0000_0000)]
  {
    var v1 := v / 0x100;
    var v2 := v1 / 0x100;
    var v3 := v2 / 0x100;
    var v4 := v3 / 0x100;
    var v5 := v4 / 0x100;
    assert v2 == v / 0x1_0000 && v3 == v / 0x100_0000 && v4 == v / 0x1_0000_0000 && v5 == v / 0x100_0000_0000;
    assert Image(1, v1) == [U8(v1)] && Image(1, v2) == [U8(v2)] && Image(1, v3) == [U8(v3)];
    assert Image(1, v4) == [U8(v4)] && Image(1, v5) == [U8(v5)];
    assert Image(2, v2) == [U8(v2), U8(v3)] && Image(2, v3) == [U8(v3), U8(v4)] && Image(2, v4) == [U8(v4), U8(v5)];
    assert Image(3, v1) == [U8(v1), U8(v2), U8(v3)] && Image(3, v2) == [U8(v2), U8(v3), U8(v4)];
    assert Image(3, v3) == [U8(v3), U8(v4), U8(v5)];
    assert Image(4, v1) == [U8(v1), U8(v2), U8(v3), U8(v4)] && Image(4, v2) == [U8(v2), U8(v3), U8(v4), U8(v5)];
    assert Image(5, v1) == [U8(v1), U8(v2), U8(v3), U8(v4), U8(v5)];
  }

  method Int2Store(T: array<byte>, off: nat, A: uint16)
    requires off + 2 <= T.Length
    modifies T
    ensures T[..] == Splice(old(T[..]), off, Image(2, A))
  {
    T[off] := U8(A);
    T[off + 1] := U8(A / 0x100);
    ImageBytes(A);
  }

  method Int3Store(T: array<byte>, off: nat, A: uint32)
    requires off + 3 <= T.Length
    modifies T
    ensures T[..] == Splice(old(T[..]), off, Image(3, A))
  {
    T[off] := U8(A);
    T[off + 1] := U8(A / 0x100);
    T[off + 2] := U8(A / 0x1_0000);
    ImageBytes(A);
  }

  method Int4Store(T: array<byte>, off: nat, A: uint32)
    requires off + 4 <= T.Length
    modifies T
    ensures T[..] == Splice(old(T[..]), off, Image(4, A))
  {
    T[off] := U8(A);
    T[off + 1] := U8(A / 0x100);
    T[off + 2] := U8(A / 0x1_0000);
    T[off + 3] := U8(A / 0x100_0000);
    ImageBytes(A);
  }

  method Int5Store(T: array<byte>, off: nat, A: uint64)
    requires off + 5 <= T.Length
    modifies T
    ensures T[..] == Splice(old(T[..]), off, Image(5, A))
  {
    T[off] := U8(A);
    T[off + 1] := U8(A / 0x100);
    T[off + 2] := U8(A / 0x1_0000);
    T[off + 3] := U8(A / 0x100_0000);
    T[off + 4] := U8(A / 0x1_0000_0000);
    ImageBytes(A);
  }

  method Int6Store(T: array<byte>, off: nat, A: uint64)
    requires off + 6 <= T.Length
    modifies T
    ensures T[..] == Splice(old(T[..]), off, Image(6, A))
  {
    T[off] := U8(A);
    T[off + 1] := U8(A / 0x100);
    T[off + 2] := U8(A / 0x1_0000);
    T[off + 3] := U8(A / 0x100_0000);
    T[off + 4] := U8(A / 0x1_0000_0000);
    T[off + 5] := U8(A / 0x100_0000_0000);
    ImageBytes(A);
  }

  /** The halves of a 64-bit image are the images of the halves. */
  lemma {:induction false} ImageHalves(v: nat)
    ensures Image(8, v) == Image(4, U32(v)) + Image(4, v / 0x1_0000_0000)
  {
    ImageSplit(4, 4, v);
    ImageMod(4, v);
    Ranges();
    var v1 := v / 0x100;
    var v2 := v1 / 0x100;
    var v3 := v2 / 0x100;
    assert Upper(1, v3) == v3 / 0x100 == v / 0x1_0000_0000;
    assert Upper(4, v) == Upper(3, v1) == Upper(2, v2) == Upper(1, v3);
  }

  /** What is left of `v` above its low `m` bytes. */
  function Upper(m: nat, v: nat): nat {
    if m == 0 then v else Upper(m - 1, v / 0x100)
  }

  lemma {:induction false} ImageSplit(m: nat, n: nat, v: nat)
    ensures Image(m + n, v) == Image(m, v) + Image(n, Upper(m, v))
  {
    if m > 0 {
      ImageSplit(m - 1, n, v / 0x100);
    }
  }

  lemma {:induction false} ImageMod(n: nat, v: nat)
    ensures Image(n, v % Range(n)) == Image(n, v)
  {
    LeOfImage(n, v);
    ImageOfLe(Image(n, v));
  }

  lemma {:induction false} StoreHalves(s: seq<byte>, s1: seq<byte>, s2: seq<byte>, off: nat, v: nat)
    requires off + 8 <= |s| == |s1| && s1 == Splice(s, off, Image(4, U32(v)))
    requires s2 == Splice(s1, off + 4, Image(4, v / 0x1_0000_0000))
    ensures s2 == Splice(s, off, Image(8, v))
  {
    ImageHalves(v);
    SpliceTwice(s, off, Image(4, U32(v)), Image(4, v / 0x1_0000_0000));
  }

  method Int8Store(T: array<byte>, off: nat, A: uint64)
    requires off + 8 <= T.Length
    modifies T
    ensures T[..] == Splice(old(T[..]), off, Image(8, A))
  {
    var defTemp := U32(A);
    var defTemp2 := U32(A / 0x1_0000_0000);
    assert defTemp2 == A / 0x1_0000_0000;
    ghost var before := T[..];
    Int4Store(T, off, defTemp);
    ghost var half := T[..];
    assert half == Splice(before, off, Image(4, defTemp));
    Int4Store(T, off + 4, defTemp2);
    ghost var after := T[..];
    assert after == Splice(half, off + 4, Image(4, defTemp2));
    StoreHalves(before, half, after, off, A);
  }

  // ---------------------------------------------------------------- memory copies and x86 stores

  /** One byte more of a copy. */
  lemma {:induction false} SpliceSnoc(s: seq<byte>, was: seq<byte>, off: nat, p: seq<byte>, i: nat)
    requires i < |p| && off + |p| <= |s| && was == Splice(s, off, p[..i])
    ensures was[off + i := p[i]] == Splice(s, off, p[..i + 1])
  {
    SpliceReadsBack(s, off, p[..i]);
    SpliceTwice(s, off, p[..i], [p[i]]);
    assert p[..i + 1] == p[..i] + [p[i]];
  }

  method Memcpy(T: array<byte>, off: nat, src: seq<byte>)
    requires off + |src| <= T.Length
    modifies T
    ensures T[..] == Splice(old(T[..]), off, src)
  {
    for i := 0 to |src|
      invariant T[..] == Splice(old(T[..]), off, src[..i])
    {
      ghost var was := T[..];
      T[off + i] := src[i];
      assert T[..] == was[off + i := src[i]];
      SpliceSnoc(old(T[..]), was, off, src, i);
    }
    assert src[..|src|] == src;
  }

  /** `*((uintN*) T) = A` on x86: the same bytes as the portable store of that width. */
  method X86Store(T: array<byte>, off: nat, n: nat, A: uint64)
    requires n in {2, 4, 8} && A < Range(n) && off + n <= T.Length
    modifies T
    ensures T[..] == Splice(old(T[..]), off, Image(n, A))
  {
    Memcpy(T, off, ObjectBytes(Little, n, A));
  }
}
