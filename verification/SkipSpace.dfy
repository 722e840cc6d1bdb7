/**
 The two word-at-a-time versions of `skip_trailing_space` in `m_string.h`: eight bytes at a time
 ignoring alignment, and aligned machine words between two byte-wise zones. Both find the end of the
 text that a byte-by-byte scan finds.
 */
module SkipSpace {
  import opened Bits
  import opened ByteOrder

  const SPACE: byte := 0x20

  // ---------------------------------------------------------------- specification

  /** The length of `s` without its trailing spaces: the byte-by-byte scan. */
  function Trimmed(s: seq<byte>): (n: nat)
    ensures n <= |s|
  {
    if s != [] && s[|s| - 1] == SPACE then Trimmed(s[..|s| - 1]) else |s|
  }

  /** The scan's result is the one end with only spaces after it and no space right before it. */
  lemma {:induction false} TrimmedIsTheEnd(s: seq<byte>, n: nat)
    requires n <= |s|
    ensures n == Trimmed(s)
            <==> (forall i :: n <= i < |s| ==> s[i] == SPACE) && (n > 0 ==> s[n - 1] != SPACE)
  {
    if s != [] && s[|s| - 1] == SPACE {
      if n < |s| {
        TrimmedIsTheEnd(s[..|s| - 1], n);
      }
    }
  }

  /** Dropping a block of spaces at the end changes nothing. */
  lemma {:induction false} TrimmedDrop(s: seq<byte>, n: nat, k: nat)
    requires n <= k <= |s| && forall i :: n <= i < k ==> s[i] == SPACE
    ensures Trimmed(s[..k]) == Trimmed(s[..n])
  {
    if n < k {
      TrimmedDrop(s, n, k - 1);
      assert s[..k][..k - 1] == s[..k - 1];
    }
  }

  // ---------------------------------------------------------------- words full of spaces

  function Spaces(n: nat): (s: seq<byte>)
    ensures |s| == n
  {
    seq(n, _ => SPACE)
  }

  lemma {:induction false} SpaceWords()
    ensures Le(Spaces(4)) == 0x2020_2020
    ensures Le(Spaces(8)) == 0x2020_2020_2020_2020
  {
    LeShort(Spaces(4));
    assert Spaces(4)[..4] == Spaces(4) && Spaces(8)[..8] == Spaces(8);
    LeLong(Spaces(8), 8);
    assert Spaces(8)[..4] == Spaces(4) && Spaces(8)[4..][..4] == Spaces(4);
  }

  /** A word read equals the word of spaces exactly when every byte is a space, on either kind of host. */
  lemma {:induction false} SpaceWordOnly(e: Endian, s: seq<byte>)
    ensures ObjectValue(e, s) == Le(Spaces(|s|)) <==> s == Spaces(|s|)
  {
    ImageOfLe(s);
    ImageOfLe(Reverse(s));
    ImageOfLe(Spaces(|s|));
    assert Reverse(Spaces(|s|)) == Spaces(|s|);
    if Reverse(s) == Spaces(|s|) {
      assert forall i :: 0 <= i < |s| ==> s[i] == Reverse(s)[|s| - 1 - i];
      assert s == Spaces(|s|);
    }
  }

  lemma {:induction false} Korr8OfSpaces(s: seq<byte>)
    requires |s| == 8
    ensures Uint8Korr(s) == 0x2020_2020_2020_2020 <==> s == Spaces(8)
  {
    Load8(s);
    assert s[..8] == s;
    SpaceWords();
    SpaceWordOnly(Little, s);
  }

  // ---------------------------------------------------------------- a buffer in memory

  /** The bytes at addresses `base`, `base + 1`, ...; the text is the part from `ptr` on, `len` bytes long. */
  ghost predicate Window(mem: array<byte>, base: nat, ptr: nat, len: nat) {
    base <= ptr && ptr + len <= base + mem.Length
  }

  ghost function Text(mem: array<byte>, base: nat, ptr: nat, len: nat): seq<byte>
    reads mem
    requires Window(mem, base, ptr, len)
  {
    mem[ptr - base..ptr - base + len]
  }

  /** An unaligned read of eight bytes, all of them inside the text. */
  function Read8(mem: array<byte>, base: nat, ptr: nat, ghost len: nat, at: nat): uint64
    reads mem
    requires Window(mem, base, ptr, len) && ptr <= at && at + 8 <= ptr + len
  {
    Uint8Korr(mem[at - base..at - base + 8])
  }

  /** A read of a `w`-byte word of the host: aligned, and inside the text. */
  function ReadWord(e: Endian, w: nat, mem: array<byte>, base: nat, ptr: nat, ghost len: nat, at: nat): nat
    reads mem
    requires Window(mem, base, ptr, len) && ptr <= at && at + w <= ptr + len
    requires w > 0 && at % w == 0
  {
    ObjectValue(e, mem[at - base..at - base + w])
  }

  lemma {:induction false} TextSlice(mem: array<byte>, base: nat, ptr: nat, len: nat, lo: nat, hi: nat)
    requires Window(mem, base, ptr, len) && ptr <= lo <= hi <= ptr + len
    ensures mem[lo - base..hi - base] == Text(mem, base, ptr, len)[lo - ptr..hi - ptr]
  {
    SliceOfSlice(mem[..], ptr - base, ptr - base + len, lo - ptr, hi - ptr);
    assert mem[lo - base..hi - base] == mem[..][lo - base..hi - base];
    assert Text(mem, base, ptr, len) == mem[..][ptr - base..ptr - base + len];
  }

  lemma {:induction false} SliceOfSlice(s: seq<byte>, a: nat, b: nat, c: nat, d: nat)
    requires a <= b <= |s| && c <= d <= b - a
    ensures s[a..b][c..d] == s[a + c..a + d]
  {
    var l, r := s[a..b][c..d], s[a + c..a + d];
    forall i | 0 <= i < d - c ensures l[i] == r[i] {
      assert l[i] == s[a..b][c + i] == s[a + (c + i)];
    }
  }

  /** A word of spaces just below `end` can be skipped. */
  lemma {:induction false} SkipBlock(s: seq<byte>, n: nat, w: nat)
    requires w <= n <= |s| && s[n - w..n] == Spaces(w)
    ensures Trimmed(s[..n]) == Trimmed(s[..n - w])
  {
    forall i | n - w <= i < n ensures s[i] == SPACE {
      assert s[i] == s[n - w..n][i - (n - w)];
    }
    TrimmedDrop(s, n - w, n);
  }

  /** What that end means for the bytes in memory. */
  lemma {:induction false} EndInMemory(mem: array<byte>, base: nat, ptr: nat, len: nat, end: nat)
    requires Window(mem, base, ptr, len) && end == ptr + Trimmed(Text(mem, base, ptr, len))
    ensures ptr <= end <= ptr + len && (end > ptr ==> mem[end - 1 - base] != 0x20)
    ensures forall i :: end - base <= i < ptr + len - base ==> mem[i] == 0x20
  {
    var s := Text(mem, base, ptr, len);
    TrimmedIsTheEnd(s, end - ptr);
    forall i | end - base <= i < ptr + len - base ensures mem[i] == 0x20 {
      assert s[i + base - ptr] == mem[i];
    }
  }

  /** The last loop of both versions, from any point the earlier loops may have reached. */
  method ScanBytes(mem: array<byte>, base: nat, ptr: nat, ghost len: nat, from: nat) returns (end: nat)
    requires Window(mem, base, ptr, len) && ptr <= from <= ptr + len
    requires Trimmed(Text(mem, base, ptr, len)[..from - ptr]) == Trimmed(Text(mem, base, ptr, len))
    ensures end == ptr + Trimmed(Text(mem, base, ptr, len))
    ensures ptr <= end <= ptr + len && (end > ptr ==> mem[end - 1 - base] != 0x20)
    ensures forall i :: end - base <= i < ptr + len - base ==> mem[i] == 0x20
  {
    ghost var s := Text(mem, base, ptr, len);
    end := from;
    while end > ptr && mem[end - 1 - base] == SPACE
      invariant ptr <= end <= from
      invariant Trimmed(s[..end - ptr]) == Trimmed(s)
    {
      TrimmedDrop(s, end - 1 - ptr, end - ptr);
      end := end - 1;
    }
    EndInMemory(mem, base, ptr, len, end);
  }

  // ---------------------------------------------------------------- eight bytes at a time

  method SkipTrailingSpace(mem: array<byte>, base: nat, ptr: nat, len: nat) returns (end: nat)
    requires Window(mem, base, ptr, len)
    ensures end == ptr + Trimmed(Text(mem, base, ptr, len))
    ensures ptr <= end <= ptr + len && (end > ptr ==> mem[end - 1 - base] != 0x20)
    ensures forall i :: end - base <= i < ptr + len - base ==> mem[i] == 0x20
  {
    ghost var s := Text(mem, base, ptr, len);
    assert s[..len] == s;
    end := ptr + len;
    while end - ptr >= 8
      invariant ptr <= end <= ptr + len
      invariant Trimmed(s[..end - ptr]) == Trimmed(s)
    {
      ghost var word := mem[end - 8 - base..end - base];
      TextSlice(mem, base, ptr, len, end - 8, end);
      Korr8OfSpaces(word);
      if Read8(mem, base, ptr, len, end - 8) != 0x2020_2020_2020_2020 {
        break;
      }
      SkipBlock(s, end - ptr, 8);
      end := end - 8;
    }
    end := ScanBytes(mem, base, ptr, len, end);
  }

  // ---------------------------------------------------------------- aligned words

  lemma {:induction false} EndWords(w: nat, end: nat)
    requires w > 0
    ensures end / w * w % w == 0 && end - w < end / w * w <= end
  {
    DivMul(end, w);
    ModUnique(end / w * w, w, end / w, 0);
  }

  lemma {:induction false} StartWords(w: nat, ptr: nat)
    requires w > 0 && ptr + w < 0x1_0000_0000_0000_0000
    ensures var start := U64(ptr + w - 1) / w * w; start % w == 0 && ptr <= start
  {
    assert U64(ptr + w - 1) == ptr + w - 1;
    RoundUpIsLeast(ptr, w);
  }

  /** The zone of whole words of a text longer than 20 bytes. */
  lemma {:induction false} WordBounds(w: nat, ptr: nat, len: nat)
    requires (w == 4 || w == 8) && len > 20 && ptr + len < 0x1_0000_0000_0000_0000
    ensures var startWords, endWords := U64(ptr + w - 1) / w * w, (ptr + len) / w * w;
            startWords % w == 0 && endWords % w == 0 && ptr <= startWords && ptr < endWords <= ptr + len
  {
    EndWords(w, ptr + len);
    StartWords(w, ptr);
  }

  lemma {:induction false} PositiveFactor(w: nat, d: int)
    requires w > 0 && w * d > 0
    ensures d > 0
  {
    assert w * d == -(w * -d);
  }

  /** Between two multiples of `w` there is room for a whole word. */
  lemma {:induction false} RoomForWord(w: nat, lo: nat, hi: nat)
    requires w > 0 && lo % w == 0 && hi % w == 0 && lo < hi
    ensures lo + w <= hi && (hi - w) % w == 0
  {
    var p, q := lo / w, hi / w;
    assert lo == w * p && hi == w * q;
    assert hi - lo == w * (q - p);
    PositiveFactor(w, q - p);
    AtLeastOne(w, q - p);
    assert hi - w == w * (q - 1);
    ModUnique(hi - w, w, q - 1, 0);
  }

  /** If the word just below `n` is the word of spaces, it can be skipped. */
  lemma {:induction false} SkipWord(e: Endian, s: seq<byte>, n: nat, w: nat)
    requires w <= n <= |s| && ObjectValue(e, s[n - w..n]) == Le(Spaces(w))
    ensures Trimmed(s[..n]) == Trimmed(s[..n - w])
  {
    SpaceWordOnly(e, s[n - w..n]);
    SkipBlock(s, n, w);
  }

  /** The first loop: bytes, from the end of the text down to the last word boundary. */
  method ScanTail(mem: array<byte>, base: nat, ptr: nat, len: nat, endWords: nat) returns (end: nat)
    requires Window(mem, base, ptr, len) && ptr < endWords <= ptr + len
    ensures endWords <= end <= ptr + len
    ensures Trimmed(Text(mem, base, ptr, len)[..end - ptr]) == Trimmed(Text(mem, base, ptr, len))
    ensures end > endWords ==> mem[end - 1 - base] != SPACE
  {
    ghost var s := Text(mem, base, ptr, len);
    assert s[..len] == s;
    end := ptr + len;
    while end > endWords && mem[end - 1 - base] == SPACE
      invariant endWords <= end <= ptr + len
      invariant Trimmed(s[..end - ptr]) == Trimmed(s)
    {
      TrimmedDrop(s, end - 1 - ptr, end - ptr);
      end := end - 1;
    }
  }

  /** The middle loop: whole words of spaces, downwards between two aligned addresses. */
  method ScanWords(e: Endian, w: nat, spaceInt: nat, mem: array<byte>, base: nat, ptr: nat, ghost len: nat,
                   startWords: nat, from: nat)
    returns (end: nat)
    requires w > 0 && spaceInt == Le(Spaces(w))
    requires Window(mem, base, ptr, len) && ptr <= startWords <= from <= ptr + len
    requires startWords % w == 0 && from % w == 0
    ensures startWords <= end <= from
    ensures Trimmed(Text(mem, base, ptr, len)[..end - ptr]) == Trimmed(Text(mem, base, ptr, len)[..from - ptr])
  {
    ghost var s := Text(mem, base, ptr, len);
    end := from;
    Room(w, startWords, end);
    while end > startWords && ReadWord(e, w, mem, base, ptr, len, end - w) == spaceInt
      invariant startWords <= end <= from && end % w == 0
      invariant end > startWords ==> startWords + w <= end && (end - w) % w == 0
      invariant Trimmed(s[..end - ptr]) == Trimmed(s[..from - ptr])
    {
      SkipWordOfText(e, w, mem, base, ptr, len, end);
      end := end - w;
      Room(w, startWords, end);
    }
  }

  /** If the word read below `end` is the word of spaces, it can be skipped. */
  lemma {:induction false} SkipWordOfText(e: Endian, w: nat, mem: array<byte>, base: nat, ptr: nat, len: nat, end: nat)
    requires Window(mem, base, ptr, len) && w > 0 && ptr + w <= end <= ptr + len && (end - w) % w == 0
    requires ReadWord(e, w, mem, base, ptr, len, end - w) == Le(Spaces(w))
    ensures var s := Text(mem, base, ptr, len); Trimmed(s[..end - ptr]) == Trimmed(s[..end - w - ptr])
  {
    TextSlice(mem, base, ptr, len, end - w, end);
    assert mem[end - w - base..end - w - base + w] == mem[end - w - base..end - base];
    SkipWord(e, Text(mem, base, ptr, len), end - ptr, w);
  }

  lemma {:induction false} Room(w: nat, lo: nat, hi: nat)
    requires w > 0 && lo % w == 0 && hi % w == 0 && lo <= hi
    ensures hi > lo ==> lo + w <= hi && (hi - w) % w == 0
  {
    if hi > lo {
      RoomForWord(w, lo, hi);
    }
  }

  /** The two loops above the last one: bytes down to `endWords`, then words down to `startWords`. */
  method ScanZones(e: Endian, w: nat, spaceInt: nat, mem: array<byte>, base: nat, ptr: nat, len: nat,
                   startWords: nat, endWords: nat)
    returns (end: nat)
    requires w > 0 && spaceInt == Le(Spaces(w))
    requires Window(mem, base, ptr, len) && ptr <= startWords && ptr < endWords <= ptr + len
    requires startWords % w == 0 && endWords % w == 0
    ensures ptr <= end <= ptr + len
    ensures Trimmed(Text(mem, base, ptr, len)[..end - ptr]) == Trimmed(Text(mem, base, ptr, len))
  {
    end := ScanTail(mem, base, ptr, len, endWords);
    if mem[end - 1 - base] == SPACE && startWords < endWords {
      end := ScanWords(e, w, spaceInt, mem, base, ptr, len, startWords, end);
    }
  }

  /**
   The version for processors that insist on aligned words. Addresses are 64 bits wide, so the rounding
   up is done modulo 2^64; an object never reaches beyond the last address.
   */
  method SkipTrailingSpaceAligned(e: Endian, w: nat, mem: array<byte>, base: nat, ptr: nat, len: nat)
    returns (end: nat)
    requires w == 4 || w == 8
    requires Window(mem, base, ptr, len) && ptr + len < 0x1_0000_0000_0000_0000
    ensures end == ptr + Trimmed(Text(mem, base, ptr, len))
    ensures ptr <= end <= ptr + len && (end > ptr ==> mem[end - 1 - base] != 0x20)
    ensures forall i :: end - base <= i < ptr + len - base ==> mem[i] == 0x20
  {
    var spaceInt := if w == 4 then 0x2020_2020 else 0x2020_2020_2020_2020;
    SpaceWords();
    ghost var s := Text(mem, base, ptr, len);
    assert s[..len] == s;
    end := ptr + len;
    if len > 20 {
      var endWords := end / w * w;
      var startWords := U64(ptr + w - 1) / w * w;
      WordBounds(w, ptr, len);
      assert endWords > ptr;
      end := ScanZones(e, w, spaceInt, mem, base, ptr, len, startWords, endWords);
    }
    end := ScanBytes(mem, base, ptr, len, end);
  }
}
