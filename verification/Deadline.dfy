/**
 Absolute deadlines of `my_global.h` and the wait they turn into in `thr_cond.h`, in both compile-time
 variants: a FILETIME in 100 ns units with a remembered longest wait, and a seconds/nanoseconds pair.
 Clock readings are parameters, in 100 ns units, the same for both variants.
 */
module Deadline {
  import opened Bits
  import opened Common

  const SECOND_100NS := 10_000_000
  const SECOND_NS := 1_000_000_000
  const TWO_64 := 0x1_0000_0000_0000_0000
  const INT_MAX32 := 0x7FFF_FFFF
  const UINT_MAX := 0xFFFF_FFFF
  const INFINITE := 0xFFFF_FFFF

  // ---------------------------------------------------------------- seconds and nanoseconds

  /** `struct timespec` where the compiler provides it. */
  class TimeSpec {
    var tvSec: int
    var tvNsec: int

    ghost predicate Normal()
      reads this
    {
      0 <= tvNsec < SECOND_NS
    }

    /** The represented instant, in nanoseconds. */
    ghost function Instant(): int
      reads this
    {
      tvSec * SECOND_NS + tvNsec
    }

    /**
     `set_timespec_nsec`; `narrowTime` is SIZEOF_TIME_T < SIZEOF_LONG_LONG. The deadline is never late,
     and it is exact if and only if the sum fits its word and the seconds their type.
     */
    method SetNsec(systemTime: nat, nsec: nat, narrowTime: bool)
      requires systemTime < TWO_64 && nsec < TWO_64
      modifies this
      ensures Normal() && tvSec >= 0 && (narrowTime ==> tvSec <= INT_MAX32)
      ensures Instant() <= systemTime * 100 + nsec
      ensures Instant() == systemTime * 100 + nsec <==> Fits(systemTime, nsec, narrowTime)
      ensures Instant() == Reached(systemTime, nsec, narrowTime)
      ensures 0 <= tvNsec < 1_000_000_000
      ensures tvSec * 1_000_000_000 + tvNsec == systemTime * 100 + nsec
              <==> && systemTime + nsec / 100 < 0x1_0000_0000_0000_0000
                   && (narrowTime ==> (systemTime + nsec / 100) / 10_000_000 <= 0x7FFF_FFFF)
    {
      var now := U64(systemTime + nsec / 100);
      var sec := now / SECOND_100NS;
      if narrowTime {
        sec := Min(sec, INT_MAX32);
      }
      tvSec := sec;
      tvNsec := now % SECOND_100NS * 100 + nsec % 100;
    }

    /** `set_timespec`: whole seconds, multiplied in a 64-bit word. */
    method SetSeconds(systemTime: nat, sec: nat, narrowTime: bool)
      requires systemTime < TWO_64 && sec < TWO_64
      modifies this
      ensures Normal()
      ensures Instant() <= systemTime * 100 + sec * SECOND_NS
      ensures Instant() == systemTime * 100 + sec * SECOND_NS
              <==> sec * SECOND_NS < TWO_64 && Fits(systemTime, sec * SECOND_NS, narrowTime)
      ensures Instant() == Reached(systemTime, U64(sec * SECOND_NS), narrowTime)
    {
      SetNsec(systemTime, U64(sec * SECOND_NS), narrowTime);
    }
  }

  /** The deadline's 100 ns count fits 64 bits and, if time_t is narrow, its seconds fit 31. */
  predicate Fits(systemTime: nat, nsec: nat, narrowTime: bool) {
    && systemTime + nsec / 100 < TWO_64
    && (narrowTime ==> (systemTime + nsec / 100) / SECOND_100NS <= INT_MAX32)
  }

  /** The instant the stored fields denote, the deadline asked for or not. */
  function Reached(systemTime: nat, nsec: nat, narrowTime: bool): nat {
    var now := U64(systemTime + nsec / 100);
    var excess := if narrowTime then now / SECOND_100NS - INT_MAX32 else 0;
    now * 100 + nsec % 100 - (if excess > 0 then excess * SECOND_NS else 0)
  }

  /**
   Each way to miss the deadline happens. 18 446 744 074 s: the 64-bit product wraps and leaves 0.29 s. One
   second more than a narrow time_t can hold: a second early. The last clock reading and 100 ns: the sum
   wraps to the origin of time.
   */
  lemma {:induction false} DeadlineCanBeMissed()
    ensures Reached(0, U64(18_446_744_074 * SECOND_NS), false) == 290_448_384
    ensures Reached((INT_MAX32 + 1) * SECOND_100NS, 0, true) == INT_MAX32 * SECOND_NS
    ensures Reached(TWO_64 - 1, 100, false) == 0
  {
  }

  /** The values of a signed type of 32 or 64 bits. */
  predicate InWord(x: int, narrow: bool) {
    if narrow then -0x8000_0000 <= x < 0x8000_0000 else -0x8000_0000_0000_0000 <= x < 0x8000_0000_0000_0000
  }

  /** Signed arithmetic in the width of time_t. */
  function TimeWord(x: int, narrow: bool): int {
    if narrow then Signed(0x1_0000_0000, x) else Signed(0x1_0000_0000_0000_0000, x)
  }

  function Cmp(ts1: TimeSpec, ts2: TimeSpec): int
    reads ts1, ts2
  {
    if ts1.tvSec > ts2.tvSec || (ts1.tvSec == ts2.tvSec && ts1.tvNsec > ts2.tvNsec) then 1
    else if ts1.tvSec < ts2.tvSec || (ts1.tvSec == ts2.tvSec && ts1.tvNsec < ts2.tvNsec) then -1
    else 0
  }

  /** The seconds are subtracted in time_t; all else happens in the unsigned 64-bit type. */
  function Diff(ts1: TimeSpec, ts2: TimeSpec, narrowTime: bool): nat
    reads ts1, ts2
  {
    var seconds := TimeWord(ts1.tvSec - ts2.tvSec, narrowTime);
    U64(U64(U64(U64(seconds) * SECOND_NS) + U64(ts1.tvNsec)) - U64(ts2.tvNsec))
  }

  /** Comparing seconds first and nanoseconds second is comparing the represented instants. */
  lemma {:induction false} CmpIsTheOrderOfInstants(ts1: TimeSpec, ts2: TimeSpec)
    requires ts1.Normal() && ts2.Normal()
    ensures Cmp(ts1, ts2) == 1 <==> ts1.Instant() > ts2.Instant()
    ensures Cmp(ts1, ts2) == -1 <==> ts1.Instant() < ts2.Instant()
    ensures Cmp(ts1, ts2) == 0 <==> ts1.Instant() == ts2.Instant()
  {
    var d := ts1.tvSec - ts2.tvSec;
    assert ts1.Instant() - ts2.Instant() == d * SECOND_NS + ts1.tvNsec - ts2.tvNsec;
  }

  lemma {:induction false} U64Absorbs(x: int, k: int)
    ensures U64(x + k * TWO_64) == U64(x)
  {
  }

  lemma {:induction false} U32Absorbs(x: int, k: int)
    ensures U32(x + k * 0x1_0000_0000) == U32(x)
  {
  }

  /** Cutting a summand to its word first does not change the sum's low bits. */
  lemma {:induction false} CutTwice(x: int, y: int)
    ensures U32(Signed(0x1_0000_0000, x) + y) == U32(x + y)
    ensures U64(Signed(0x1_0000_0000_0000_0000, x) + y) == U64(x + y)
  {
    var s32, s64 := Signed(0x1_0000_0000, x), Signed(0x1_0000_0000_0000_0000, x);
    var k32 := -(x / 0x1_0000_0000) - if s32 < 0 then 1 else 0;
    var k64 := -(x / 0x1_0000_0000_0000_0000) - if s64 < 0 then 1 else 0;
    assert s32 == x + k32 * 0x1_0000_0000 && s64 == x + k64 * 0x1_0000_0000_0000_0000;
    U32Absorbs(x + y, k32);
    U64Absorbs(x + y, k64);
  }

  /** The only thing that can go wrong: a narrow time_t cannot hold the difference of the seconds. */
  predicate SecondsFit(ts1: TimeSpec, ts2: TimeSpec, narrowTime: bool)
    reads ts1, ts2
  {
    narrowTime ==> InWord(ts1.tvSec - ts2.tvSec, true)
  }

  /**
   For all field values, negative ones included, the wrapped arithmetic is the exact difference modulo 2^64
   if and only if the difference of the seconds fits; between deadlines not before 1970 it always does.
   */
  lemma {:induction false} DiffIsExactModulo(ts1: TimeSpec, ts2: TimeSpec, narrowTime: bool)
    requires InWord(ts1.tvSec, narrowTime) && InWord(ts2.tvSec, narrowTime)
    ensures Diff(ts1, ts2, narrowTime) == U64(ts1.Instant() - ts2.Instant()) <==> SecondsFit(ts1, ts2, narrowTime)
    ensures ts1.tvSec >= 0 && ts2.tvSec >= 0 ==> SecondsFit(ts1, ts2, narrowTime)
  {
    var d, n1, n2 := ts1.tvSec - ts2.tvSec, ts1.tvNsec, ts2.tvNsec;
    var seconds := TimeWord(d, narrowTime);
    WrappedSum(seconds, n1, n2);
    assert ts1.Instant() - ts2.Instant() == d * SECOND_NS + n1 - n2;
    if narrowTime {
      NarrowSeconds(d, n1 - n2);
    } else {
      WrappedSum(d, n1, n2);
      CutTwice(d, 0);
    }
  }

  /** A 32-bit difference off by one wrap is a sum off by 2^32 seconds, which 64 bits tell apart. */
  lemma {:induction false} NarrowSeconds(d: int, n: int)
    requires -0x1_0000_0000 < d < 0x1_0000_0000
    ensures U64(TimeWord(d, true) * SECOND_NS + n) == U64(d * SECOND_NS + n) <==> InWord(d, true)
  {
    var s := TimeWord(d, true);
    assert s == d || s == d + 0x1_0000_0000 || s == d - 0x1_0000_0000;
    var x, wrap := d * 1_000_000_000 + n, 0x1_0000_0000 * 1_000_000_000;
    assert U64(x + wrap) != U64(x) && U64(x - wrap) != U64(x);
  }

  lemma {:induction false} WrappedSum(s: int, n1: int, n2: int)
    ensures U64(U64(U64(U64(s) * SECOND_NS) + U64(n1)) - U64(n2)) == U64(s * SECOND_NS + n1 - n2)
  {
    var ks, k1, k2 := s / TWO_64, n1 / TWO_64, n2 / TWO_64;
    var p := U64(s) * SECOND_NS;
    var kp := p / TWO_64;
    var q := U64(p) + U64(n1);
    var kq := q / TWO_64;
    var whole := kq + kp + k1 - k2 + ks * SECOND_NS;
    assert s * SECOND_NS + n1 - n2 == U64(q) - U64(n2) + whole * TWO_64;
    U64Absorbs(U64(q) - U64(n2), whole);
  }

  /** Of ordered deadlines the difference is the distance itself, if and only if both widths can hold it. */
  lemma {:induction false} DiffOfOrdered(ts1: TimeSpec, ts2: TimeSpec, narrowTime: bool)
    requires InWord(ts1.tvSec, narrowTime) && InWord(ts2.tvSec, narrowTime)
    requires ts1.Normal() && ts2.Normal() && Cmp(ts1, ts2) >= 0
    ensures Diff(ts1, ts2, narrowTime) == ts1.Instant() - ts2.Instant()
            <==> ts1.Instant() - ts2.Instant() < TWO_64 && SecondsFit(ts1, ts2, narrowTime)
  {
    CmpIsTheOrderOfInstants(ts1, ts2);
    DiffIsExactModulo(ts1, ts2, narrowTime);
  }

  // ---------------------------------------------------------------- FILETIME with a longest wait

  /** `struct timespec` on Windows before VS2015; `long` is 32 bits wide there. */
  class FileTimeSpec {
    var i64: int
    var maxTimeoutMsec: int

    /** What `set_timespec_nsec` leaves behind. */
    ghost predicate Valid()
      reads this
    {
      0 <= maxTimeoutMsec <= INT_MAX32
    }

    method SetNsec(fileTime: nat, nsec: nat)
      requires nsec < TWO_64 && fileTime + nsec / 100 < TWO_64 / 2
      modifies this
      ensures Valid()
      ensures i64 == fileTime + nsec / 100
      ensures maxTimeoutMsec == Min(nsec / 1_000_000, 0x7FFF_FFFF)
    {
      var maxMsec := nsec / 1_000_000;
      i64 := fileTime + nsec / 100;
      maxMsec := Min(maxMsec, INT_MAX32);
      maxTimeoutMsec := maxMsec;
    }
  }

  /** C's division, which truncates toward zero. */
  function CDiv(a: int, b: int): int
    requires b > 0
  {
    if a >= 0 then a / b else -(-a / b)
  }

  // ---------------------------------------------------------------- the wait in milliseconds

  /** The wait a deadline `left` 100 ns units away deserves, cut at `longest` milliseconds. */
  function Wait(left: int, longest: nat): nat {
    if left < 0 then 0 else Min(left / 10_000, longest)
  }

  /** `get_milliseconds`, FILETIME variant: the clamps in order; the one to UINT_MAX never applies. */
  method FileMilliseconds(abstime: FileTimeSpec?, fileTime: nat) returns (dword: nat)
    requires abstime != null ==> abstime.Valid()
    ensures abstime == null ==> dword == 0xFFFF_FFFF
    ensures abstime != null ==> dword == Wait(abstime.i64 - fileTime, abstime.maxTimeoutMsec)
    ensures abstime != null && abstime.i64 < fileTime ==> dword == 0
    ensures abstime != null && abstime.i64 >= fileTime ==>
              dword == Min((abstime.i64 - fileTime) / 10_000, abstime.maxTimeoutMsec)
    ensures abstime != null ==> dword <= 0x7FFF_FFFF
  {
    if abstime == null {
      return INFINITE;
    }
    var millis := CDiv(abstime.i64 - fileTime, 10_000);
    if millis < 0 {
      return 0;
    }
    if millis > abstime.maxTimeoutMsec {
      millis := abstime.maxTimeoutMsec;
    }
    assert millis <= UINT_MAX;
    if millis > UINT_MAX {
      millis := UINT_MAX;
    }
    return U32(millis);
  }

  /** The deadline as the unsigned 64-bit count of milliseconds that the wait is computed from. */
  function FutureMs(tvSec: int, tvNsec: int, narrowTime: bool): nat {
    U64(TimeWord(TimeWord(tvSec * 1000, narrowTime) + CDiv(tvNsec, 1_000_000), narrowTime))
  }

  /**
   `get_milliseconds`, seconds/nanoseconds variant, for all values of the fields: arithmetic as wide as
   time_t, then 64 bits unsigned, then a cast to 32 bits. Exact whenever the milliseconds fit.
   */
  method StructMilliseconds(abstime: TimeSpec, systemTime: nat, narrowTime: bool) returns (dword: nat)
    requires InWord(abstime.tvSec, narrowTime) && InWord(abstime.tvNsec, true) && systemTime < TWO_64
    ensures dword == StructWait(FutureMs(abstime.tvSec, abstime.tvNsec, narrowTime), systemTime / 10_000)
    ensures abstime.Normal() && MsFit(abstime.Instant() / 1_000_000, narrowTime)
            ==> dword == StructWait(abstime.Instant() / 1_000_000, systemTime / 10_000)
  {
    var product := TimeWord(abstime.tvSec * 1000, narrowTime);
    var future := U64(TimeWord(product + CDiv(abstime.tvNsec, 1_000_000), narrowTime));
    var now := systemTime / 10_000;
    if abstime.Normal() {
      FutureIsExactIff(abstime.tvSec, abstime.tvNsec, narrowTime);
    }
    if future < now {
      return 0;
    }
    return U32(future - now);
  }

  predicate MsFit(ms: int, narrowTime: bool) {
    0 <= ms <= if narrowTime then INT_MAX32 else TWO_64 - 1
  }

  /** The count in one step: the milliseconds cut to time_t's width, then to 64 bits unsigned. */
  lemma {:induction false} FutureInOneCut(tvSec: int, tvNsec: nat, narrowTime: bool)
    ensures FutureMs(tvSec, tvNsec, narrowTime) == U64(TimeWord(tvSec * 1000 + tvNsec / 1_000_000, narrowTime))
  {
    CutTwice(tvSec * 1000, tvNsec / 1_000_000);
  }

  lemma {:induction false} CutIsExactIff(ms: int, narrowTime: bool)
    requires narrowTime ==> ms < TWO_64 / 2
    ensures U64(TimeWord(ms, narrowTime)) == ms <==> MsFit(ms, narrowTime)
  {
    CutTwice(ms, 0);
  }

  /**
   The millisecond count is that of the deadline if and only if it fits: with a wide time_t the first half
   billion years from 1970 on do; with a narrow one, where the product has 32 bits, only the first 24 days.
   */
  lemma {:induction false} FutureIsExactIff(tvSec: int, tvNsec: int, narrowTime: bool)
    requires InWord(tvSec, narrowTime) && 0 <= tvNsec < SECOND_NS
    ensures var ms := (tvSec * SECOND_NS + tvNsec) / 1_000_000;
            FutureMs(tvSec, tvNsec, narrowTime) == ms <==> MsFit(ms, narrowTime)
  {
    var ms := tvSec * 1000 + tvNsec / 1_000_000;
    MsOfFields(tvSec, tvNsec);
    FutureInOneCut(tvSec, tvNsec, narrowTime);
    CutIsExactIff(ms, narrowTime);
  }

  lemma {:induction false} MsOfFields(tvSec: int, tvNsec: nat)
    ensures (tvSec * 1_000_000_000 + tvNsec) / 1_000_000 == tvSec * 1000 + tvNsec / 1_000_000
  {
    var q, r := tvNsec / 1_000_000, tvNsec % 1_000_000;
    assert tvSec * 1_000_000_000 + tvNsec == (tvSec * 1000 + q) * 1_000_000 + r;
  }

  /** 25 January 1970 with a narrow time_t: the product turns negative, and huge when made unsigned. */
  lemma {:induction false} NarrowProductWraps()
    ensures FutureMs(2_147_484, 0, true) == TWO_64 - 2_147_483_296
  {
  }

  function StructWait(futureMs: nat, nowMs: nat): nat {
    if futureMs < nowMs then 0 else U32(futureMs - nowMs)
  }

  /** Neither the remembered longest wait nor its cut to a long shortens the wait. */
  predicate ClampIdle(start: nat, nsec: nat, now: nat) {
    var deadline := start + nsec / 100;
    now <= deadline ==> (deadline - now) / 10_000 <= Min(nsec / 1_000_000, INT_MAX32)
  }

  /**
   The FILETIME variant never waits longer than was asked for, whatever the clock did in between, and waits
   the exact number of whole milliseconds left if and only if no clamp applies. None does if the clock did
   not run backwards and the request fits a long.
   */
  lemma {:induction false} FileWaitBounds(start: nat, nsec: nat, now: nat)
    ensures var deadline := start + nsec / 100;
            var w := Wait(deadline - now, Min(nsec / 1_000_000, INT_MAX32));
            && 0 <= w <= nsec / 1_000_000
            && (now <= deadline ==> (w == (deadline - now) / 10_000 <==> ClampIdle(start, nsec, now)))
            && (now < start && nsec / 1_000_000 <= INT_MAX32 ==> w == nsec / 1_000_000)
    ensures now >= start && nsec / 1_000_000 <= INT_MAX32 ==> ClampIdle(start, nsec, now)
  {
    assert nsec / 100 / 10_000 == nsec / 1_000_000;
  }

  /**
   The cast loses nothing exactly when the remaining time fits 32 bits; otherwise the wait comes out
   shorter, by whole multiples of 2^32 ms.
   */
  lemma {:induction false} StructWaitExact(futureMs: nat, nowMs: nat)
    ensures futureMs < nowMs ==> StructWait(futureMs, nowMs) == 0
    ensures futureMs >= nowMs ==>
              && (StructWait(futureMs, nowMs) == futureMs - nowMs <==> futureMs - nowMs <= 0xFFFF_FFFF)
              && (StructWait(futureMs, nowMs) == 0xFFFF_FFFF <==> (futureMs - nowMs) % 0x1_0000_0000 == 0xFFFF_FFFF)
              && (futureMs - nowMs - StructWait(futureMs, nowMs)) % 0x1_0000_0000 == 0
    ensures StructWait(futureMs, nowMs) <= 0xFFFF_FFFF
  {
  }

  /** A deadline 2^32 ms away: no wait at all; one millisecond less: the code for waiting for ever. */
  lemma {:induction false} StructWaitCanWrap()
    ensures StructWait(0x1_0000_0000, 0) == 0 && StructWait(0xFFFF_FFFF, 0) == 0xFFFF_FFFF
  {
  }

  /** The two floors of the seconds variant take one millisecond more or not. */
  function Carry(deadline: nat, now: nat): nat {
    if deadline % 10_000 < now % 10_000 then 1 else 0
  }

  /**
   The two variants on one deadline and one clock reading: what each one waits, and, with no clamp active,
   that they differ by at most a millisecond, and by one exactly when the deadline's fraction of a
   millisecond is below the clock's.
   */
  lemma {:induction false} VariantsAgree(start: nat, nsec: nat, now: nat)
    ensures var deadline, longest := start + nsec / 100, Min(nsec / 1_000_000, INT_MAX32);
            var file := Wait(deadline - now, longest);
            var secs := StructWait((start * 100 + nsec) / 1_000_000, now / 10_000);
            && (now > deadline ==> file == 0 && secs == 0)
            && (now <= deadline ==> file == Min((deadline - now) / 10_000, longest))
            && (now <= deadline ==> secs == U32((deadline - now) / 10_000 + Carry(deadline, now)))
            && (now <= deadline && ClampIdle(start, nsec, now) ==> secs == file + Carry(deadline, now))
  {
    var deadline := start + nsec / 100;
    DeadlineMs(start, nsec);
    FloorsDiffer(deadline, now);
  }

  /** Both variants count the deadline's milliseconds alike. */
  lemma {:induction false} DeadlineMs(start: nat, nsec: nat)
    ensures (start * 100 + nsec) / 1_000_000 == (start + nsec / 100) / 10_000
  {
    var deadline := start + nsec / 100;
    var q, r := deadline / 10_000, deadline % 10_000;
    assert start * 100 + nsec == deadline * 100 + nsec % 100;
    assert start * 100 + nsec == q * 1_000_000 + (r * 100 + nsec % 100);
  }

  lemma {:induction false} FloorsDiffer(deadline: nat, now: nat)
    ensures deadline < now ==> StructWait(deadline / 10_000, now / 10_000) == 0
    ensures now <= deadline ==> StructWait(deadline / 10_000, now / 10_000)
                                == U32((deadline - now) / 10_000 + Carry(deadline, now))
  {
    if now <= deadline {
      FloorDifference(deadline, now, 10_000);
    }
  }

  lemma {:induction false} FloorDifference(d: nat, n: nat, m: nat)
    requires n <= d && m > 0
    ensures d / m - n / m == (d - n) / m + if d % m < n % m then 1 else 0
  {
    var q := d / m - n / m;
    assert d == m * (d / m) + d % m && n == m * (n / m) + n % m;
    assert d - n == m * q + (d % m - n % m);
    if d % m < n % m {
      assert d - n == m * (q - 1) + (m + d % m - n % m);
      ModUnique(d - n, m, q - 1, m + d % m - n % m);
    } else {
      ModUnique(d - n, m, q, d % m - n % m);
    }
  }

  /**
   Setting a deadline and asking for the wait, both variants side by side. They agree as above whenever no
   clamp applies, the deadline is representable and its milliseconds fit time_t's width.
   */
  method BothVariants(start: nat, nsec: nat, now: nat, narrowTime: bool) returns (file: nat, secs: nat)
    requires start + nsec / 100 < TWO_64 / 2 && nsec < TWO_64 && now < TWO_64
    ensures file <= nsec / 1_000_000
    ensures var deadline := start + nsec / 100;
            ClampIdle(start, nsec, now) && (narrowTime ==> deadline / 10_000 <= INT_MAX32)
            ==> secs == file + if now <= deadline then Carry(deadline, now) else 0
  {
    var f := new FileTimeSpec;
    f.SetNsec(start, nsec);
    file := FileMilliseconds(f, now);
    var s := new TimeSpec;
    s.SetNsec(start, nsec, narrowTime);
    secs := StructMilliseconds(s, now, narrowTime);
    FileWaitBounds(start, nsec, now);
    VariantsAgree(start, nsec, now);
    DeadlineMs(start, nsec);
  }
}
