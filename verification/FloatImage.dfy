/**
 Floating-point and host-order images of `big_endian.h` and `little_endian.h`. A float is its bit
 pattern; a host's memory holds the pattern's bytes in the host's own order. The machine-independent
 image of every pattern is the low-byte-first one, whatever the host.
 */
module FloatImage {
  import opened Bits
  import opened ByteOrder

  // ---------------------------------------------------------------- big-endian hosts

  method BigFloat4Store(T: array<byte>, off: nat, pattern: uint32)
    requires off + 4 <= T.Length
    modifies T
    ensures T[..] == Splice(old(T[..]), off, Image(4, pattern))
  {
    var A := ObjectBytes(Big, 4, pattern);
    T[off] := A[3];
    T[off + 1] := A[2];
    T[off + 2] := A[1];
    T[off + 3] := A[0];
  }

  method BigFloat4Get(M: seq<byte>) returns (pattern: nat)
    requires |M| >= 4
    ensures pattern == Le(M[..4])
  {
    var defTemp := [M[3], M[2], M[1], M[0]];
    pattern := ObjectValue(Big, defTemp);
    assert Reverse(defTemp) == M[..4];
  }

  method BigFloat8Store(T: array<byte>, off: nat, pattern: uint64)
    requires off + 8 <= T.Length
    modifies T
    ensures T[..] == Splice(old(T[..]), off, Image(8, pattern))
  {
    var V := ObjectBytes(Big, 8, pattern);
    T[off] := V[7];
    T[off + 1] := V[6];
    T[off + 2] := V[5];
    T[off + 3] := V[4];
    T[off + 4] := V[3];
    T[off + 5] := V[2];
    T[off + 6] := V[1];
    T[off + 7] := V[0];
  }

  method BigFloat8Get(M: seq<byte>) returns (pattern: nat)
    requires |M| >= 8
    ensures pattern == Le(M[..8])
  {
    var defTemp := [M[7], M[6], M[5], M[4], M[3], M[2], M[1], M[0]];
    pattern := ObjectValue(Big, defTemp);
    assert Reverse(defTemp) == M[..8];
  }

  // ---------------------------------------------------------------- little-endian hosts

  /** `float4store` and `float8store`: the host's own bytes, copied. */
  method LittleFloatStore(T: array<byte>, off: nat, n: nat, pattern: uint64)
    requires n in {4, 8} && pattern < Range(n) && off + n <= T.Length
    modifies T
    ensures T[..] == Splice(old(T[..]), off, Image(n, pattern))
  {
    Memcpy(T, off, ObjectBytes(Little, n, pattern));
  }

  /** `float4get` and `float8get`: the buffer's bytes, copied into an object of the host. */
  method LittleFloatGet(M: seq<byte>, n: nat) returns (pattern: nat)
    requires n in {4, 8} && |M| >= n
    ensures pattern == Le(M[..n])
  {
    var V := new byte[n](_ => 0);
    Memcpy(V, 0, M[..n]);
    assert V[..] == M[..n];
    pattern := ObjectValue(Little, V[..]);
  }

  /** What any host stores, any host gets back: the contracts above leave no other outcome. */
  lemma {:induction false} CrossHost(s: seq<byte>, off: nat, n: nat, pattern: nat)
    requires off + n <= |s| && pattern < Range(n)
    ensures |Splice(s, off, Image(n, pattern))| == |s|
    ensures Le(Splice(s, off, Image(n, pattern))[off..off + n]) == pattern
  {
    LeOfImage(n, pattern);
    SpliceReadsBack(s, off, Image(n, pattern));
    ModUnique(pattern, Range(n), 0, pattern);
  }

  // ---------------------------------------------------------------- bi-endian hardware

  /** A double where floats keep the high word first although bytes are low-first. */
  function WordSwapped(pattern: nat): (s: seq<byte>)
    ensures |s| == 8
  {
    Image(4, pattern / 0x1_0000_0000) + Image(4, U32(pattern))
  }

  function WordSwappedValue(s: seq<byte>): nat
    requires |s| == 8
  {
    Le(s[..4]) * 0x1_0000_0000 + Le(s[4..])
  }

  /** The layout: the high word first, each word low byte first; and back. */
  lemma {:induction false} DoubleLayout(pattern: uint64)
    ensures Le(WordSwapped(pattern)[..4]) == pattern as int / 0x1_0000_0000
    ensures Le(WordSwapped(pattern)[4..]) == pattern as int % 0x1_0000_0000
    ensures WordSwappedValue(WordSwapped(pattern)) == pattern
  {
    var hi, lo := pattern / 0x1_0000_0000, U32(pattern);
    Ranges();
    LeOfImage(4, hi);
    LeOfImage(4, lo);
    assert WordSwapped(pattern)[..4] == Image(4, hi) && WordSwapped(pattern)[4..] == Image(4, lo);
  }

  method DoubleStore(T: array<byte>, off: nat, pattern: uint64)
    requires off + 8 <= T.Length
    modifies T
    ensures T[..] == Splice(old(T[..]), off, Image(8, pattern))
  {
    var V := WordSwapped(pattern);
    ImageHalves(pattern);
    assert V[4..] + V[..4] == Image(8, pattern);
    T[off] := V[4];
    T[off + 1] := V[5];
    T[off + 2] := V[6];
    T[off + 3] := V[7];
    T[off + 4] := V[0];
    T[off + 5] := V[1];
    T[off + 6] := V[2];
    T[off + 7] := V[3];
  }

  method DoubleGet(M: seq<byte>) returns (pattern: nat)
    requires |M| >= 8
    ensures pattern == Le(M[..8])
  {
    var defTemp := [M[4], M[5], M[6], M[7], M[0], M[1], M[2], M[3]];
    pattern := WordSwappedValue(defTemp);
    assert defTemp[..4] == M[4..8] && defTemp[4..] == M[..4];
    LeLong(M, 8);
    assert M[4..][..4] == M[4..8];
  }

  // ---------------------------------------------------------------- host-order integers

  method ShortStore(T: array<byte>, off: nat, A: int)
    requires -0x8000 <= A < 0x8000 && off + 2 <= T.Length
    modifies T
    ensures T[..] == Splice(old(T[..]), off, ObjectBytes(Big, 2, U16(A)))
  {
    var defTemp := U32(A);
    T[off + 1] := U8(defTemp);
    T[off] := U8(defTemp / 0x100);
    ImageBytes(U16(A));
    ShortBytes(A);
    assert Reverse(Image(2, U16(A))) == [U8(U16(A) / 0x100), U8(U16(A))];
  }

  method LongStore(T: array<byte>, off: nat, A: int)
    requires -0x8000_0000 <= A < 0x8000_0000 && off + 4 <= T.Length
    modifies T
    ensures T[..] == Splice(old(T[..]), off, ObjectBytes(Big, 4, U32(A)))
  {
    T[off + 3] := U8(A);
    T[off + 2] := U8(A / 0x100);
    T[off + 1] := U8(A / 0x1_0000);
    T[off] := U8(A / 0x100_0000);
    ImageBytes(U32(A));
    ShiftedBytes(A);
    assert Reverse(Image(4, U32(A))) == [U8(A / 0x100_0000), U8(A / 0x1_0000), U8(A / 0x100), U8(A)];
  }

  /** An arithmetic right shift and a shift of the two's-complement word give the same low bytes. */
  lemma {:induction false} ShiftedBytes(A: int)
    requires -0x8000_0000 <= A < 0x8000_0000
    ensures U8(U32(A)) == U8(A) && U8(U32(A) / 0x100) == U8(A / 0x100)
    ensures U8(U32(A) / 0x1_0000) == U8(A / 0x1_0000) && U8(U32(A) / 0x100_0000) == U8(A / 0x100_0000)
  {
    if A < 0 {
      var u := A + 0x1_0000_0000;
      assert U32(A) == u;
      assert u / 0x100 == A / 0x100 + 0x100_0000;
      assert u / 0x1_0000 == A / 0x1_0000 + 0x1_0000;
      assert u / 0x100_0000 == A / 0x100_0000 + 0x100;
      SameByte(A, 0x100_0000);
      SameByte(A / 0x100, 0x1_0000);
      SameByte(A / 0x1_0000, 0x100);
      SameByte(A / 0x100_0000, 1);
    }
  }

  lemma {:induction false} SameByte(x: int, k: nat)
    ensures U8(x + 0x100 * k) == U8(x)
  {
  }

  lemma {:induction false} ShortBytes(A: int)
    requires -0x8000 <= A < 0x8000
    ensures U8(U32(A)) == U8(U16(A)) && U8(U32(A) / 0x100) == U8(U16(A) / 0x100)
  {
    if A < 0 {
      assert U32(A) == U16(A) + 0x100 * 0xFF_FF00;
      assert U32(A) / 0x100 == U16(A) / 0x100 + 0x100 * 0xFFFF;
      SameByte(U16(A), 0xFF_FF00);
      SameByte(U16(A) / 0x100, 0xFFFF);
    }
  }

  function UShortGet(M: seq<byte>): uint16
    requires |M| >= 2
  {
    U16(M[1] + U16(M[0] as int * 0x100))
  }

  /** The shifted high byte is cast to short before the sum, so it may be negative already. */
  function ShortGet(M: seq<byte>): int
    requires |M| >= 2
  {
    Signed(0x1_0000, M[1] + Signed(0x1_0000, M[0] as int * 0x100))
  }

  function LongGet(M: seq<byte>): int
    requires |M| >= 4
  {
    Signed(0x1_0000_0000, ObjectValue(Big, [M[0], M[1], M[2], M[3]]))
  }

  lemma {:induction false} ShortParts(A: int)
    requires -0x8000 <= A < 0x8000
    ensures var hi, lo := U8(U16(A) / 0x100), U8(U16(A));
            && Signed(0x1_0000, lo + Signed(0x1_0000, hi as int * 0x100)) == A
            && U16(lo + U16(hi as int * 0x100)) == U16(A)
  {
    var u := U16(A);
    assert u == 0x100 * (u / 0x100) + u % 0x100;
    assert U8(u / 0x100) == u / 0x100;
  }

  lemma {:induction false} ShortRoundTrip(A: int)
    requires -0x8000 <= A < 0x8000
    ensures ShortGet(ObjectBytes(Big, 2, U16(A))) == A && UShortGet(ObjectBytes(Big, 2, U16(A))) == U16(A)
  {
    ImageBytes(U16(A));
    assert ObjectBytes(Big, 2, U16(A)) == [U8(U16(A) / 0x100), U8(U16(A))];
    ShortParts(A);
  }

  lemma {:induction false} LongRoundTrip(B: int)
    requires -0x8000_0000 <= B < 0x8000_0000
    ensures LongGet(ObjectBytes(Big, 4, U32(B))) == B
  {
    var M := ObjectBytes(Big, 4, U32(B));
    assert [M[0], M[1], M[2], M[3]] == M;
    ObjectRoundTrip(Big, 4, U32(B));
    Ranges();
    assert U32(B) % Range(4) == U32(B);
  }

  /** On a big-endian host the host-order loads undo the host-order stores, sign and all. */
  lemma {:induction false} HostOrderRoundTrip(A: int, B: int)
    requires -0x8000 <= A < 0x8000 && -0x8000_0000 <= B < 0x8000_0000
    ensures ShortGet(ObjectBytes(Big, 2, U16(A))) == A && UShortGet(ObjectBytes(Big, 2, U16(A))) == U16(A)
    ensures LongGet(ObjectBytes(Big, 4, U32(B))) == B
  {
    ShortRoundTrip(A);
    LongRoundTrip(B);
  }
}
