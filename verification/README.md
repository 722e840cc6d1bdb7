# Verification of the agenda and of the client header code it ships with

The repository holds a Java agenda application and the C headers of a MySQL client. This project models
the parts of both that carry an argument, and proves the argument:

- `RwLock`, `CriticalSection`: the Windows lock shims of `thr_rwlock.h` and `thr_mutex.h`, as interleavings
  of atomic steps of any number of threads. The SRWLOCK and the critical section are taken as abstract
  primitives; a release in a mode the caller does not hold breaks the model's lock. Steps are sequentially
  consistent; since the flag is proved free of data races this is what the C memory model gives too.
- `Bits`, `ByteOrder`, `FloatImage`: machine words, byte-order loads and stores, float and host-order
  images, `MY_ALIGN`. Shifts and casts wrap as two's-complement machines do it.
- `SkipSpace`: both word-at-a-time versions of `skip_trailing_space`, over an array at an integer address.
- `Deadline`: absolute deadlines and millisecond waits in both compile-time variants. `long` is 32 bits wide,
  as on Windows; the width of `time_t` is a parameter. Both variants get the same clock reading in 100 ns units.
- `TrayNotifier`, `InAppNotifier`: the two reminder loops, as runs over rounds whose work, oversleeping,
  session and rows the surroundings choose. Local time has a fixed offset of whole minutes and no round throws.
- `Agenda`: the event table without a unique key, the session with its cached listing, and the handlers.
- `DayPainter`, with `Decimal` for the labels: the calendar painting.
- `SslOptions`: the SSL option machine.

Each method is proved equal to a function of its inputs or of the old state; the properties are proved about
that function, and laws by the fields and numbers themselves say what the function computes. Every lemma switches automatic induction off and writes its induction out.

Seven things the documentation or a reader would expect are false of the code; each has its exact condition:

- editing or deleting one event affects that event alone only under the condition of
  `Agenda.EditTouchesOnlySelected` and `Agenda.DeleteRemovesOnlySelected`, because rows are found again by user,
  date and time and the table has no key (`Agenda.EditCanLoseAnEvent`, `Agenda.DeleteCanLoseAnEvent`);
- the seconds/nanoseconds wait is cast to 32 bits without a clamp (`Deadline.StructWaitExact`), and computed in
  the width of `time_t` first (`Deadline.FutureIsExactIff`);
- `set_timespec` multiplies in 64 bits, and a deadline must fit its word and `time_t` to be exact
  (`Deadline.TimeSpec.SetSeconds`, `Deadline.TimeSpec.SetNsec`, inputs in `Deadline.DeadlineCanBeMissed`);
- the in-window reminder skips minutes as its rounds add up (`InAppNotifier.SkippedMinutes`, a lost event in
  `InAppNotifier.DriftLosesAnEvent`), although the comment in its loop says that it checks every minute;
- a due event of the user in session can stay silent in the tray, but only if one minute is polled twice, after a
  sleep that ended early, and the session changes in between (`TrayNotifier.DueIsShownIff`,
  `TrayNotifier.UntoldMeansSessionChanged`, a run in `TrayNotifier.SecondUserMissesEvent`); of two events of one user
  with one date, time and title only one is shown;
- reminders are not shown once, but once by every tray process and every window's thread started so far, since
  logging out ends neither (`TrayNotifier.OncePerProcess`, `InAppNotifier.EveryThreadAnnounces`, two windows in
  `InAppNotifier.SecondWindowAnnouncesTwice`);
- a CA option can be dropped without the warning (`SslOptions.SilentlyDroppedIff`, input in
  `SslOptions.CaCanBeDropped`).

## Model

| member | source | states |
|---|---|---|
| `RwLock.InvariantHolds` | mysql-5.7.30-winx64/include/thr_rwlock.h:80-138 | In every interleaving of any number of threads: a set flag means one exclusive holder that has set it and not yet cleared it; every thread inside a call holds the lock the way its next step assumes |
| `RwLock.UnlockSeesItsMode` | mysql-5.7.30-winx64/include/thr_rwlock.h:124-131 | A thread that holds the lock shared never finds the flag set, one that owns it never finds it clear, at the moment it may read it |
| `RwLock.RefinesIdealLock` | mysql-5.7.30-winx64/include/thr_rwlock.h:80-138 | Every interleaving is a run of a lock whose unlock gives back exactly the mode the caller holds; no release call is ever made in the wrong mode |
| `RwLock.NoDataRace` | mysql-5.7.30-winx64/include/thr_rwlock.h:59-138 | No two threads are ever about to access the flag with one of them writing; writers own the lock exclusively, readers hold it |
| `RwLock.FlagWrittenOnlyByOwner` | mysql-5.7.30-winx64/include/thr_rwlock.h:90-122 | Only a step of the exclusive owner changes the flag; a failed try-lock changes nothing |
| `RwLock.AccessIsReal` | mysql-5.7.30-winx64/include/thr_rwlock.h:90-131 | Only the steps counted as writes can change the flag, and only those counted as reads depend on it |
| `RwLock.WaitsOnlyForHolders` | mysql-5.7.30-winx64/include/thr_rwlock.h:80-122 | In every reachable state readers wait for an exclusive owner only, writers for any holder, and exactly the holders may unlock |
| `RwLock.HoldsAreConserved` | mysql-5.7.30-winx64/include/thr_rwlock.h:80-138 | What a thread holds is what it acquired minus what it gave back, over every run |
| `RwLock.CallsFinish` | mysql-5.7.30-winx64/include/thr_rwlock.h:101-138 | A call past its acquisition never blocks, is over in at most three steps and never breaks the lock |
| `RwLock.FreeLockHasClearFlag` | mysql-5.7.30-winx64/include/thr_rwlock.h:124-133 | Whenever nobody owns the lock exclusively the flag is clear and nobody is about to write it |
| `RwLock.UnlockAlone` | mysql-5.7.30-winx64/include/thr_rwlock.h:124-134 | The steps of an unlock call run without interruption: flag cleared, one hold released in its own mode, nothing else changed |
| `RwLock.NativeRwLock.Init` | mysql-5.7.30-winx64/include/thr_rwlock.h:59-64 | The lock starts free with a clear flag |
| `RwLock.NativeRwLock.RdLock` | mysql-5.7.30-winx64/include/thr_rwlock.h:80-84 | One more shared hold; equal to its one step of the interleaved system |
| `RwLock.NativeRwLock.TryRdLock` | mysql-5.7.30-winx64/include/thr_rwlock.h:90-95 | Success takes one shared hold, EBUSY takes none; equal to its step of the interleaved system |
| `RwLock.NativeRwLock.WrLock` | mysql-5.7.30-winx64/include/thr_rwlock.h:101-106 | The caller is the one holder and the flag is set; equal to its two steps of the interleaved system |
| `RwLock.NativeRwLock.TryWrLock` | mysql-5.7.30-winx64/include/thr_rwlock.h:112-118 | Success makes the caller the one holder with the flag set, EBUSY changes nothing; equal to its steps |
| `RwLock.NativeRwLock.Unlock` | mysql-5.7.30-winx64/include/thr_rwlock.h:124-134 | From any reachable state the call returns one hold in the mode it was taken, leaves the flag clear, and equals its steps of the interleaved system |
| `CriticalSection.InvariantHolds` | mysql-5.7.30-winx64/include/thr_mutex.h:85-121 | Over every interleaving: owner and recursion count agree, only the owner is inside a try-lock, a try-lock about to be taken back sees a count above 1, all answers given so far are right |
| `CriticalSection.TryLockTellsTheTruth` | mysql-5.7.30-winx64/include/thr_mutex.h:95-108 | A try-lock answers 0 exactly when no thread owned the mutex at its try step, nested locking included |
| `CriticalSection.CountReadByOwnerOnly` | mysql-5.7.30-winx64/include/thr_mutex.h:97-105 | Between entering and leaving again the caller owns the section, so nobody else can change the count it reads |
| `CriticalSection.NoRelockNoNesting` | mysql-5.7.30-winx64/include/thr_mutex.h:85-121 | If no thread blocks on a mutex it owns, the recursion count exceeds 1 only inside a try-lock being refused |
| `CriticalSection.RelockNests` | mysql-5.7.30-winx64/include/thr_mutex.h:85-93 | The other direction: right after such a relock the owner is outside with a count above 1 |
| `CriticalSection.RelockHappens` | mysql-5.7.30-winx64/include/thr_mutex.h:85-93 | A concrete schedule: one thread locks twice and owns the mutex with count 2 |
| `CriticalSection.RefinesPlainMutex` | mysql-5.7.30-winx64/include/thr_mutex.h:85-121 | Without relocking every step is a step of a non-recursive mutex, the try-lock taking effect at its try step |
| `CriticalSection.NativeMutex.TryLock` | mysql-5.7.30-winx64/include/thr_mutex.h:95-108 | Run alone: 0 exactly on a free mutex, which is then taken with count 1; any other mutex is left exactly as it was; equal to its steps of the interleaved system |
| `SkipSpace.TrimmedIsTheEnd` | mysql-5.7.30-winx64/include/m_string.h:311-313 | The byte-by-byte scan finds the unique end with only spaces after it and no space right before it |
| `SkipSpace.Korr8OfSpaces` | mysql-5.7.30-winx64/include/m_string.h:326 | The 8-byte number is 0x2020202020202020 exactly when all eight bytes are spaces |
| `SkipSpace.SpaceWordOnly` | mysql-5.7.30-winx64/include/m_string.h:286-293 | A host word equals the word of spaces exactly when every byte is a space, on hosts of either byte order |
| `SkipSpace.SkipTrailingSpace` | mysql-5.7.30-winx64/include/m_string.h:321-333 | For any text the 8-bytes-at-a-time version returns the scan's end: 0x20 in every byte from there on and not in the byte before; all reads inside the text |
| `SkipSpace.SkipTrailingSpaceAligned` | mysql-5.7.30-winx64/include/m_string.h:284-314 | For any address, length and contents, words of 4 or 8 bytes: the scan's end, 0x20 in every byte from there on and not in the byte before; `end_words > ptr`; every word read aligned and inside the text; all loops end |
| `SkipSpace.ScanWords` | mysql-5.7.30-winx64/include/m_string.h:307-309 | The word loop: skips spaces only, between two aligned addresses, reading aligned words inside the text |
| `SkipSpace.ScanTail` | mysql-5.7.30-winx64/include/m_string.h:305-306 | The first byte loop: skips spaces only, and stops above the last word boundary only at a non-space |
| `Bits.MyAlignIsLeastMultiple` | mysql-5.7.30-winx64/include/my_global.h:462 | For every power of two and every A without overflow, the mask expression is the least multiple that is >= A |
| `Bits.MyAlignIsRoundUp` | mysql-5.7.30-winx64/include/m_string.h:301-302 | The mask expression equals the divide-and-multiply rounding used for `start_words` |
| `Bits.MyAlignOverflow` | mysql-5.7.30-winx64/include/my_global.h:462 | With overflow the result falls below A, so the condition above is exact |
| `Bits.MyAlignNarrowIff` | mysql-5.7.30-winx64/include/my_global.h:462 | With an unsigned L narrower than A the complement has no high bits: the result is right if and only if the rounded address fits the width of L |
| `Bits.AndMask` | mysql-5.7.30-winx64/include/my_global.h:462 | Masking with the complement of 2^k - 1 clears exactly the remainder modulo 2^k |
| `Bits.SignedIs` | mysql-5.7.30-winx64/include/byte_order_generic.h:78-81 | The conversion to a signed type gives the one number of the signed range that is the same modulo the number of words |
| `ByteOrder.UnsignedLoads` | mysql-5.7.30-winx64/include/byte_order_generic.h:45-76 | Every unsigned load, widths 2, 3, 4, 5, 6 and 8, is the low-byte-first number of the bytes it reads, in any buffer that has them, and the x86 word reads agree |
| `ByteOrder.SignedLoads` | mysql-5.7.30-winx64/include/my_byteorder.h:43-55 | Every signed load is the two's-complement value of the bytes it reads, in any buffer that has them, the 24-bit one with its or-ed sign byte included |
| `ByteOrder.X86SignedLoads` | mysql-5.7.30-winx64/include/byte_order_generic_x86.h:34-50 | The signed x86 word reads agree with the portable ones on all bytes |
| `ByteOrder.Sint3BitsValue` | mysql-5.7.30-winx64/include/my_byteorder.h:43-55 | The or-ed bytes share no bit: the result is their weighted sum, with 0xFF000000 added when bit 23 is set |
| `ByteOrder.LoadAfterStore` | mysql-5.7.30-winx64/include/byte_order_generic.h:27-104 | Loading where a value was stored, at any place of any buffer it fits, gives the value modulo 2^(8n), or its two's complement, for every width; the x86 reads too |
| `ByteOrder.SignedRoundTrip` | mysql-5.7.30-winx64/include/my_byteorder.h:43-55 | A signed value stored in two's complement anywhere in a buffer is loaded back, widths 2, 3, 4 and 8 |
| `ByteOrder.LeSpelledOut` | mysql-5.7.30-winx64/include/byte_order_generic.h:45-76 | What each byte of a low-byte-first number weighs, for every width |
| `ByteOrder.LeOfImage` | mysql-5.7.30-winx64/include/byte_order_generic.h:83-104 | Reading the image of a value gives the value modulo what the width holds |
| `ByteOrder.ImageOfLe` | mysql-5.7.30-winx64/include/byte_order_generic.h:27-81 | Writing the number read from some bytes gives back those bytes |
| `ByteOrder.SpliceReadsBack` | mysql-5.7.30-winx64/include/byte_order_generic.h:83-104 | A store changes its own bytes and no other |
| `ByteOrder.Int3Store` | mysql-5.7.30-winx64/include/my_byteorder.h:89-94 | The buffer with exactly these bytes replaced by the low-byte-first image |
| `ByteOrder.Int5Store` | mysql-5.7.30-winx64/include/my_byteorder.h:96-103 | The buffer with exactly these bytes replaced by the low-byte-first image |
| `ByteOrder.Int6Store` | mysql-5.7.30-winx64/include/my_byteorder.h:105-113 | The buffer with exactly these bytes replaced by the low-byte-first image |
| `ByteOrder.Int2Store` | mysql-5.7.30-winx64/include/byte_order_generic.h:83-88 | The buffer with exactly these bytes replaced by the low-byte-first image |
| `ByteOrder.Int4Store` | mysql-5.7.30-winx64/include/byte_order_generic.h:90-96 | The buffer with exactly these bytes replaced by the low-byte-first image |
| `ByteOrder.Int8Store` | mysql-5.7.30-winx64/include/byte_order_generic.h:98-104 | The buffer with exactly these bytes replaced by the low-byte-first image |
| `ByteOrder.X86Store` | mysql-5.7.30-winx64/include/byte_order_generic_x86.h:52-68 | The direct memory store leaves the same buffer as the portable one of its width |
| `FloatImage.BigFloat4Store` | mysql-5.7.30-winx64/include/big_endian.h:28-32 | A big-endian host writes the low-byte-first image of every bit pattern |
| `FloatImage.BigFloat4Get` | mysql-5.7.30-winx64/include/big_endian.h:34-40 | A big-endian host reads back the pattern whose image is in the buffer |
| `FloatImage.BigFloat8Store` | mysql-5.7.30-winx64/include/big_endian.h:42-50 | As for four bytes, with eight |
| `FloatImage.BigFloat8Get` | mysql-5.7.30-winx64/include/big_endian.h:52-62 | As for four bytes, with eight |
| `FloatImage.LittleFloatStore` | mysql-5.7.30-winx64/include/little_endian.h:41-54 | A little-endian host writes the same image as a big-endian one |
| `FloatImage.LittleFloatGet` | mysql-5.7.30-winx64/include/little_endian.h:36-49 | A little-endian host reads the same pattern as a big-endian one |
| `FloatImage.CrossHost` | mysql-5.7.30-winx64/include/little_endian.h:36-54 | What any host stores, any host gets back, for every pattern, anywhere in a buffer |
| `ByteOrder.BigEndianValue` | mysql-5.7.30-winx64/include/big_endian.h:28-75 | On a big-endian host the first byte of an object is the most significant |
| `FloatImage.DoubleStore` | mysql-5.7.30-winx64/include/little_endian.h:61-69 | Where words are swapped in memory the store still writes the low-byte-first image |
| `FloatImage.DoubleGet` | mysql-5.7.30-winx64/include/little_endian.h:70-80 | Where words are swapped in memory the load still reads the low-byte-first number, so the pair is an inverse pair |
| `FloatImage.DoubleLayout` | mysql-5.7.30-winx64/include/little_endian.h:56-80 | The swapped layout: high word first, each word low byte first; reading it gives the pattern back |
| `FloatImage.ShortStore` | mysql-5.7.30-winx64/include/big_endian.h:84-87 | Writes exactly the bytes the host itself keeps for that short |
| `FloatImage.LongStore` | mysql-5.7.30-winx64/include/big_endian.h:88-92 | Writes exactly the bytes the host itself keeps for that int, negative ones included |
| `FloatImage.HostOrderRoundTrip` | mysql-5.7.30-winx64/include/big_endian.h:64-92 | Host-order loads undo host-order stores on a big-endian host, sign and all |
| `Deadline.TimeSpec.SetNsec` | mysql-5.7.30-winx64/include/my_global.h:711-721 | 0 <= tv_nsec < 10^9; never later than start*100 + nsec; equal to it if and only if the sum fits its word and the seconds fit time_t; otherwise the instant it does reach |
| `Deadline.TimeSpec.SetSeconds` | mysql-5.7.30-winx64/include/my_global.h:735-738 | Exact if and only if, besides, sec * 10^9 fits 64 bits; otherwise the instant it does reach |
| `Deadline.DeadlineCanBeMissed` | mysql-5.7.30-winx64/include/my_global.h:711-738 | Concrete inputs for each way to fail: the product wraps to 0.29 s, a narrow time_t comes out a second early, the sum wraps to the origin of time |
| `Deadline.CmpIsTheOrderOfInstants` | mysql-5.7.30-winx64/include/my_global.h:747-763 | On normalized values the comparison is the total order of the represented instants |
| `Deadline.DiffIsExactModulo` | mysql-5.7.30-winx64/include/my_global.h:765-770 | For all field values, the wrapped expression is the exact difference of the instants modulo 2^64 if and only if the difference of the seconds fits time_t, as it does for deadlines not before 1970 |
| `Deadline.DiffOfOrdered` | mysql-5.7.30-winx64/include/my_global.h:747-770 | For ordered deadlines it is the distance itself if and only if that is below 2^64 and its seconds fit time_t |
| `Deadline.FileTimeSpec.SetNsec` | mysql-5.7.30-winx64/include/my_global.h:722-732 | The FILETIME deadline, and a longest wait of nsec/10^6 ms cut to INT_MAX32 |
| `Deadline.FileMilliseconds` | mysql-5.7.30-winx64/include/thr_cond.h:60-90 | The remaining whole milliseconds, never negative, cut at the longest wait; the UINT_MAX clamp is dead; never the code for waiting for ever except for a null deadline |
| `Deadline.FileWaitBounds` | mysql-5.7.30-winx64/include/thr_cond.h:72-85 | Never longer than asked for even if the clock ran backwards; exact if and only if no clamp applies, and none does when the clock did not run backwards and the request fits a long |
| `Deadline.StructMilliseconds` | mysql-5.7.30-winx64/include/thr_cond.h:92-101 | For all field values: zero if past, else the milliseconds between the two floors, cast to 32 bits; the deadline's own milliseconds whenever they fit time_t's width |
| `Deadline.FutureIsExactIff` | mysql-5.7.30-winx64/include/thr_cond.h:96 | The count of milliseconds is the deadline's if and only if it fits: with a 32-bit time_t the product is 32 bits wide and only deadlines within 24 days of 1970 do |
| `Deadline.NarrowProductWraps` | mysql-5.7.30-winx64/include/thr_cond.h:96 | A concrete deadline of January 1970 whose millisecond count comes out near 2^64 |
| `Deadline.StructWaitExact` | mysql-5.7.30-winx64/include/thr_cond.h:98-101 | Zero if past; else the remaining time modulo 2^32, so the cast loses nothing exactly when it fits 32 bits; when it yields the code for waiting for ever |
| `Deadline.StructWaitCanWrap` | mysql-5.7.30-winx64/include/thr_cond.h:98-101 | Concrete deadlines: 2^32 ms away gives no wait at all, one less gives a wait for ever |
| `Deadline.VariantsAgree` | mysql-5.7.30-winx64/include/thr_cond.h:58-103 | Same deadline, same clock: what each variant waits; whenever no clamp applies they differ by at most 1 ms, and by 1 exactly when the deadline's millisecond fraction is below the clock's |
| `Deadline.BothVariants` | mysql-5.7.30-winx64/include/thr_cond.h:58-103 | Setting a deadline and asking for the wait, end to end: the variants agree as above whenever no clamp applies and, with a 32-bit time_t, the deadline's milliseconds fit it |
| `TrayNotifier.IdEventoIsFaithful` | src/view/NotificadorTray.java:97 | Whatever the titles contain, two notifications have one key exactly if date, time, title and kind are the same |
| `TrayNotifier.TimeTextReadsBack` | src/view/NotificadorTray.java:89 | The time is written as two digits of the hour, two of the minute and :00, for every minute of the day |
| `TrayNotifier.MatchesIff` | src/view/NotificadorTray.java:86-90 | The query selects exactly the user's rows whose date and time are that very minute, 1440 minutes to a day |
| `TrayNotifier.NotificadorTray.NotificarEventos` | src/view/NotificadorTray.java:83-104 | The loop over the result rows equals the row-by-row specification |
| `TrayNotifier.QueryInOrder` | src/view/NotificadorTray.java:91-103 | Rows are taken one after the other in the order the query returns them |
| `TrayNotifier.NotificadorTray.Run` | src/view/NotificadorTray.java:37-65 | The polling loop equals the specified memory and clock after the same rounds, each of its two queries reading the table for itself |
| `TrayNotifier.ShowIff` | src/view/NotificadorTray.java:97-101 | A row is shown if and only if the same notification was not shown before, to any user |
| `TrayNotifier.NeverTwice` | src/view/NotificadorTray.java:37-104 | Over any run, with early wake-ups, repeated minutes and changes of user, no two notices shown agree in date, time, title and kind |
| `TrayNotifier.MinuteStep` | src/view/NotificadorTray.java:61 | One round moves on by one minute plus what work and oversleeping spill over |
| `TrayNotifier.SleepRealigns` | src/view/NotificadorTray.java:61 | The sleep aims at the first full minute after the round, whatever the round's length; a poll is as far into its minute as the sleep before it was late |
| `TrayNotifier.OnTimeIff` | src/view/NotificadorTray.java:61 | When sleeps do not end early, by exactly one minute if and only if work and oversleeping each stay within their minute |
| `TrayNotifier.EveryMinutePolled` | src/view/NotificadorTray.java:39-65 | Every consecutive minute is polled while each round's work, begun as late as the sleep before it ended, is over within the minute, and no sleep ends early or a whole minute late |
| `TrayNotifier.NoMinuteSkippedIff` | src/view/NotificadorTray.java:39-65 | When sleeps never end early, n rounds take at least n minutes, and exactly n if and only if that condition on work and lateness holds |
| `TrayNotifier.PolledIsShown` | src/view/NotificadorTray.java:46-55 | By the end of a round that polls a listed row's minute, or the minute five before, a notice with the row's date, time, title and kind has been shown (of a row with the same key, it may be another one) |
| `TrayNotifier.ShownWasDue` | src/view/NotificadorTray.java:46-104 | Whatever a round shows is a row it found for the session's user, at the polled minute or five minutes ahead, according to the kind |
| `TrayNotifier.AheadComesFirst` | src/view/NotificadorTray.java:49-54 | Within a round all notices five minutes ahead come before those due now |
| `TrayNotifier.ShownIffDue` | src/view/NotificadorTray.java:37-104 | Over any run a notice has been shown if and only if one with the same key was due in some round so far |
| `TrayNotifier.DueIsShownIff` | src/view/NotificadorTray.java:37-104 | A notice due in a round is shown in that very round, for its own user, if and only if none with the same key was due in a round before |
| `TrayNotifier.SilencedInOneMinute` | src/view/NotificadorTray.java:37-104 | A notice kept silent that way was due at an earlier poll of the very same minute |
| `TrayNotifier.DueIsShownInItsRound` | src/view/NotificadorTray.java:37-104 | If no sleep ended early, every due notice is shown in its own round for its own user, however long the rounds take and whoever was in session before |
| `TrayNotifier.UntoldMeansSessionChanged` | src/view/NotificadorTray.java:37-104 | If the user of a due notice is not told, then another user was in session at an earlier poll of the same minute, and a sleep ended early in between |
| `TrayNotifier.ExactlyOnce` | src/view/NotificadorTray.java:39-104 | One user, a stable row, work and lateness within the minute: each kind is shown exactly once, in the round that polls the minute (or the one five before), not by any round before, nor again by any after, also across midnight |
| `TrayNotifier.SecondUserStaysSilent` | src/view/NotificadorTray.java:97-98 | One step: the key does not name the user, so after a first user's notice a second user's of the same date, time and title is not shown |
| `TrayNotifier.SecondUserMissesEvent` | src/view/NotificadorTray.java:39-104 | A concrete run: a sleep ends 1 ms early, the session changes in between, and the second user's due event is never shown |
| `TrayNotifier.OncePerProcess` | src/view/LoginUsuario.java:167-172 | Every login starts another tray process without keys: over all of them a notice is shown exactly once by each one that ever found it due |
| `InAppNotifier.FirstPollNearBoundary` | src/view/NotificadorEventos.java:49-58 | The wait is the longest whole number of milliseconds not beyond the next full minute; when the first poll still falls in the old minute |
| `InAppNotifier.PollTimeIs` | src/view/NotificadorEventos.java:24-42 | The clock is never looked at again: each poll comes a nominal minute and the round's work after the one before |
| `InAppNotifier.Drift` | src/view/NotificadorEventos.java:22-41 | minute(k) = minute(0) + k + floor((offset(0) + work so far) / one minute) |
| `InAppNotifier.MinutesIncrease` | src/view/NotificadorEventos.java:22-41 | No minute is polled twice |
| `InAppNotifier.SkippedMinutes` | src/view/NotificadorEventos.java:22-41 | The set of minutes between the first poll and the k-th that no round polled has as many elements as the accumulated drift has whole minutes; it is empty if and only if offset and work together stay below one minute |
| `InAppNotifier.MissedIff` | src/view/NotificadorEventos.java:22-47 | An event listed throughout, with its reminder between the first poll and the k-th, goes unannounced if and only if that minute was skipped |
| `InAppNotifier.NotificadorEventos.MostrarPendientes` | src/view/NotificadorEventos.java:29-40 | The loop over the cached list equals the row-by-row specification |
| `InAppNotifier.AlertsInOrder` | src/view/NotificadorEventos.java:29-40 | Alerts come in the order of the list |
| `InAppNotifier.NotificadorEventos.Run` | src/view/NotificadorEventos.java:22-47 | The loop's alerts are those specified for the rounds up to and with the first one that is told to stop; no round if stopped before or during the first wait |
| `InAppNotifier.CountInRound` | src/view/NotificadorEventos.java:29-40 | Every listed copy of an event whose time is the polled minute, or five minutes after it, is announced with that kind, and no other event |
| `InAppNotifier.AnnouncedOnce` | src/view/NotificadorEventos.java:22-47 | Over one thread's run an alert comes from one round at most, once per listed copy, and never if the drift skipped its minute |
| `InAppNotifier.EveryThreadAnnounces` | src/view/VistaPrincipal.java:488-490 | Every window starts another thread on the same cache: altogether an alert is raised once per listed copy by each thread that polls its minute |
| `InAppNotifier.SecondWindowAnnouncesTwice` | src/view/VistaPrincipal.java:488-490 | A concrete case: two windows opened, one event listed once, announced twice |
| `InAppNotifier.DriftLosesAnEvent` | src/view/NotificadorEventos.java:22-41 | A concrete run in which an event listed throughout is never announced |
| `Agenda.Query` | src/dao/EventoDAO.java:15-40 | All selected rows with their multiplicities, in the given order |
| `Agenda.SelectCounts` | src/dao/EventoDAO.java:15-40 | A query finds every row that meets its condition as often as the table holds it, and no other |
| `Agenda.ListingsByFields` | src/dao/EventoDAO.java:15-120 | The two listings by the rows' fields: the user's rows, date and hour descending; the user's rows of the day, hour ascending |
| `Agenda.UpdatedIs` | src/dao/EventoDAO.java:58-79 | An update keeps the row count and replaces every selected row by a copy of the new one, nothing else |
| `Agenda.UpdatedByFields` | src/dao/EventoDAO.java:58-79 | Row by row: exactly the rows of that user, date and time become the new one |
| `Agenda.DeletedIs` | src/dao/EventoDAO.java:81-93 | A delete removes the selected rows and nothing else |
| `Agenda.DeletedByFields` | src/dao/EventoDAO.java:81-93 | No row of that user, date and time is left, every other as often as before |
| `Agenda.OthersKept` | src/dao/EventoDAO.java:42-93 | Insert, update and delete leave the rows outside their condition in place, whatever one selects among them |
| `Agenda.EditTouchesOnlySelected` | src/dao/EventoDAO.java:58-79 | Editing a row changes it alone if and only if every other row of its user, date and time already equals the result |
| `Agenda.EditCanLoseAnEvent` | src/dao/EventoDAO.java:58-79 | Two different events at one date and time: editing one overwrites the other |
| `Agenda.EditEmptiesOldSlot` | src/dao/EventoDAO.java:58-79 | After an edit nothing is left at the old date and time unless the new ones are the same |
| `Agenda.DeleteRemovesOnlySelected` | src/dao/EventoDAO.java:81-93 | Deleting a row deletes it alone if and only if no other row has its user, date and time |
| `Agenda.DeleteCanLoseAnEvent` | src/dao/EventoDAO.java:81-93 | Two events at one date and time: deleting one leaves neither |
| `Agenda.Aplicacion.IniciarSesion` | src/controller/LoginController.java:23-35 | Succeeds exactly with the stored password, and then user and complete listing are in place; otherwise nothing changes |
| `Agenda.Aplicacion.CerrarSesion` | src/view/VistaPrincipal.java:935-937 | No user, no cached list |
| `Agenda.Aplicacion.Refresh` | src/session/UsuarioActivo.java:37-39 | The cache becomes the complete ordered listing of the table as it is |
| `Agenda.Aplicacion.Commit` | src/view/VistaPrincipal.java:136-138 | Table changed first, cache replaced as a whole afterwards; every value the other thread can read stays a complete listing of some version |
| `Agenda.Aplicacion.Crear` | src/view/VistaPrincipal.java:124-142 | Succeeds exactly with a session and non-empty fields; one row more, cache refreshed; otherwise nothing changes |
| `Agenda.Aplicacion.ListarPorFecha` | src/dao/EventoDAO.java:98-120 | The user's rows of one day with their multiplicities, by hour |
| `Agenda.Aplicacion.Elegir` | src/view/VistaPrincipal.java:304-305 | The row at the picked place of the user's list of the day by hour; none exactly without session or such a place |
| `Agenda.ChoiceByRank` | src/view/VistaPrincipal.java:304-305 | The picked row has the idx-th smallest hour: at most idx of the user's rows of the day are earlier, more than idx not later |
| `Agenda.Aplicacion.Editar` | src/view/VistaPrincipal.java:303-343 | The picked row's user, date and time decide which rows become the new one, all others stay in place, cache refreshed; fails exactly without session or row and then changes nothing |
| `Agenda.Aplicacion.Eliminar` | src/view/VistaPrincipal.java:400-422 | No row with the picked row's user, date and time is left, every other as often as before, cache refreshed; fails exactly without session or row and then changes nothing |
| `Agenda.Aplicacion.Run` | src/view/VistaPrincipal.java:124-422 | Over any run of logins, logouts, creations, edits and deletions: cache exact after every handler, every list ever readable complete and never older than the one before, rows of users not logged in untouched |
| `DayPainter.HighlightEventDays` | src/view/VistaPrincipal.java:561-609 | Final look of every component, for any events, order and previous painting, from the nested loops with break |
| `DayPainter.PaintFirst` | src/view/VistaPrincipal.java:588-595 | The first button with the text is painted, nothing else changes |
| `DayPainter.DaysPaintedRight` | src/view/VistaPrincipal.java:561-609 | With distinct day labels, for a button whose text reads back to a day: the selected day yellow with the orange line, any other day green exactly when an event of the shown month falls on it, else the calendar's look |
| `DayPainter.OthersReset` | src/view/VistaPrincipal.java:561-579 | Every button whose text is no number's is reset, and what is no button keeps its look |
| `Decimal.NumeralIff` | src/view/VistaPrincipal.java:588 | A text is the label of a day if and only if it is digits without a leading zero that read back to the day |
| `Decimal.NumeralInjective` | src/view/VistaPrincipal.java:588 | Different days have different labels |
| `SslOptions.ClientSsl.HandleOption` | mysql-5.7.30-winx64/include/sslopt-case.h:29-64 | The switch performs exactly one step of the specified machine |
| `SslOptions.ClientSsl.HandleOptions` | mysql-5.7.30-winx64/include/sslopt-case.h:29-64 | Any option sequence leads to the specified settings |
| `SslOptions.ModeIsDecidedByTheLast` | mysql-5.7.30-winx64/include/sslopt-case.h:29-57 | For every sequence: the mode is what the last option that touches it makes of it, PREFERRED without any; which options touch it |
| `SslOptions.CaIsTheLastGiven` | mysql-5.7.30-winx64/include/sslopt-vars.h:39 | The final CA file is the argument of the last --ssl-ca, none if never given |
| `SslOptions.CaPathIsTheLastGiven` | mysql-5.7.30-winx64/include/sslopt-vars.h:40 | The final CA path is the argument of the last --ssl-capath, none if never given |
| `SslOptions.ClientSsl.SetClientSslOptions` | mysql-5.7.30-winx64/include/sslopt-vars.h:51-76 | Warning and passed CA arguments as specified by the final settings |
| `SslOptions.EffectOfOptions` | mysql-5.7.30-winx64/include/sslopt-vars.h:57-70 | From the sequence to the effect: it warns exactly with --ssl-mode and a CA option given and a mode below VERIFY_CA, and passes the CA settings on exactly from VERIFY_CA up |
| `SslOptions.ModeStaysValid` | mysql-5.7.30-winx64/include/sslopt-case.h:29-57 | The mode stays one of the five valid values |
| `SslOptions.OnlyTwoOptionsLower` | mysql-5.7.30-winx64/include/sslopt-case.h:29-57 | Once at VERIFY_CA or above, only --ssl-mode or --ssl=0 in between takes it below |
| `SslOptions.SilentlyDroppedIff` | mysql-5.7.30-winx64/include/sslopt-vars.h:57-70 | A given CA is neither passed on nor warned about if and only if --ssl-mode was never used and --ssl=0 had the last word over CA and verify options |
| `SslOptions.CaCanBeDropped` | mysql-5.7.30-winx64/include/sslopt-case.h:34-57 | A concrete option sequence: a CA file followed by --ssl=0 |
| `SslOptions.SwitchedOffAfterLastCa` | mysql-5.7.30-winx64/include/sslopt-case.h:34-57 | In that case --ssl=0 occurred after the last CA option |

## Left out

- `rw_pr_lock_t` and everything else the headers only declare: there is no code to model.
- The pthread branches, performance-schema and debug layers: direct calls into libraries.
- `native_mutex_lock` and `native_mutex_unlock` have no members of their own: they are the primitive's enter and leave, which the interleaved system has as steps.
- The host-order integer functions on little-endian hosts and the plain memcpy pairs: they are the loads, stores and copies of `ByteOrder`.
- Signed shifts and overflows that C leaves undefined or implementation-defined are modelled as wrap-around and arithmetic shift.
- `Deadline.FileTimeSpec.SetNsec`: readings whose 64-bit signed sum overflows are excluded, since C leaves them undefined.
- `cmp_timespec` and `diff_timespec` in the FILETIME variant: one comparison or subtraction of one field.
- `my_getsystime` and the epoch it subtracts: not in the repository; a common shift of whole seconds cancels out.
- JDBC, connections and SQL errors: every statement succeeds, strings compare exactly, and an update counts the rows it matches. The table is a value replaced by each statement.
- Calendar internals: dates are day numbers. `TrayNotifier` takes the ten-character date text as a parameter that tells days apart.
- Exceptions inside a reminder round, which skip the sleep of the in-window loop: excluded.
- Concurrent repaintings: `highlightEventDays` is also started on threads of its own; one painting at a time is modelled.
- Swing layout, dialogs, sounds, tray icons and reports; registration and credential format checks.
- The other client options of `sslopt-vars.h` (key, certificate, cipher, CRL, TLS version): passed through unchanged.
