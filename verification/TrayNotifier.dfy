/**
 The tray reminder of `NotificadorTray.java`: an endless loop that polls the agenda, shows every due
 event whose key it has not met before, and sleeps to the next full minute.

 Time is an integer clock in milliseconds (60000 a minute), counted in the local zone, a fixed offset of
 whole minutes. The calendar is a day number; how a day is written is a parameter. No round throws.
 */
module TrayNotifier {
  import opened Common
  import opened Decimal

  /** Days 0001-01-01 to 9999-12-31, the dates written with ten characters. */
  const DAYS := 3_652_059

  type Day = d: int | 0 <= d < DAYS
  type MinuteOfDay = m: int | 0 <= m < 1440

  datatype Kind = Before | Exact

  /** A row of EVENTOS; its time of day has no seconds. */
  datatype Row = Row(cedula: string, day: Day, minuteOfDay: MinuteOfDay, titulo: string, desc: string)

  /** A notification: which event, and whether it is the one five minutes ahead. */
  datatype Notice = Notice(row: Row, kind: Kind)

  /** Same date, same time, same title, same kind. */
  predicate Same(a: Notice, b: Notice) {
    && a.row.day == b.row.day && a.row.minuteOfDay == b.row.minuteOfDay
    && a.row.titulo == b.row.titulo && a.kind == b.kind
  }

  /** The event's date and time as one count of minutes. */
  function When(r: Row): int {
    r.day as int * 1440 + r.minuteOfDay
  }

  // ---------------------------------------------------------------- the key of a notification

  /** ISO dates: ten characters, and different days are written differently. */
  ghost predicate DateFormat(f: Day -> string) {
    && (forall d :: |f(d)| == 10)
    && (forall d, e :: f(d) == f(e) ==> d == e)
  }

  /** HH:mm:00 */
  function TimeText(minuteOfDay: MinuteOfDay): (s: string)
    ensures |s| == 8
  {
    var h, m := minuteOfDay / 60, minuteOfDay % 60;
    [Digit(h / 10), Digit(h % 10), ':', Digit(m / 10), Digit(m % 10), ':', '0', '0']
  }

  function Suffix(kind: Kind): string {
    match kind case Before => "-5min" case Exact => "-exacta"
  }

  function IdEvento(f: Day -> string, n: Notice): string {
    f(n.row.day) + " " + TimeText(n.row.minuteOfDay) + "-" + n.row.titulo + Suffix(n.kind)
  }

  /** Two digits of the hour, two of the minute, no seconds. */
  lemma {:induction false} TimeTextReadsBack(m: MinuteOfDay)
    ensures var s := TimeText(m);
            && AllDigits(s[..2]) && Value(s[..2]) == m as int / 60
            && AllDigits(s[3..5]) && Value(s[3..5]) == m as int % 60
            && s[2] == ':' && s[5..] == ":00"
  {
    var s := TimeText(m);
    TwoDigits(m / 60);
    TwoDigits(m % 60);
    assert s[..2] == [Digit(m / 60 / 10), Digit(m / 60 % 10)] && s[3..5] == [Digit(m % 60 / 10), Digit(m % 60 % 10)];
  }

  lemma {:induction false} TimeTextInjective(a: MinuteOfDay, b: MinuteOfDay)
    requires TimeText(a) == TimeText(b)
    ensures a == b
  {
    TimeTextReadsBack(a);
    TimeTextReadsBack(b);
  }

  lemma {:induction false} IdEventoParts(f: Day -> string, n: Notice)
    requires DateFormat(f)
    ensures var id, t, x := IdEvento(f, n), n.row.titulo, Suffix(n.kind);
            && |id| == 20 + |t| + |x|
            && id[..10] == f(n.row.day) && id[11..19] == TimeText(n.row.minuteOfDay)
            && id[20..|id| - |x|] == t
            && id[|id| - 1] == if n.kind == Before then 'n' else 'a'
  {
    var id, x := IdEvento(f, n), Suffix(n.kind);
    assert id[|id| - 1] == x[|x| - 1];
    assert id[20..|id| - |x|] == n.row.titulo;
  }

  /** Whatever the titles contain, two notifications have the same key only if they are the same. */
  lemma {:induction false} IdEventoIsFaithful(f: Day -> string, a: Notice, b: Notice)
    requires DateFormat(f)
    ensures IdEvento(f, a) == IdEvento(f, b)
            <==> && a.row.day == b.row.day && a.row.minuteOfDay == b.row.minuteOfDay
                 && a.row.titulo == b.row.titulo && a.kind == b.kind
    ensures IdEvento(f, a) == IdEvento(f, b) <==> Same(a, b)
  {
    IdEventoParts(f, a);
    IdEventoParts(f, b);
    if IdEvento(f, a) == IdEvento(f, b) {
      TimeTextInjective(a.row.minuteOfDay, b.row.minuteOfDay);
    }
  }

  /** A way to key notifications; the loop below is stated for any. */
  type KeyOf = Notice -> string

  function Keys(f: Day -> string): KeyOf {
    n => IdEvento(f, n)
  }

  ghost predicate Faithful(key: KeyOf) {
    forall a, b :: key(a) == key(b) <==> Same(a, b)
  }

  lemma {:induction false} KeysAreFaithful(f: Day -> string)
    requires DateFormat(f)
    ensures Faithful(Keys(f))
  {
    forall a: Notice, b: Notice ensures Keys(f)(a) == Keys(f)(b) <==> Same(a, b) {
      IdEventoIsFaithful(f, a, b);
    }
  }

  // ---------------------------------------------------------------- one query, one round

  /** The keys met so far and the notifications shown so far. */
  datatype Memory = Memory(keys: set<string>, shown: seq<Notice>)

  const NOTHING := Memory({}, [])

  function Show(key: KeyOf, mem: Memory, n: Notice): Memory {
    if key(n) in mem.keys then mem else Memory(mem.keys + {key(n)}, mem.shown + [n])
  }

  /** The WHERE clause: date, time and user. */
  predicate Matches(r: Row, minute: int, cedula: string) {
    r.day == minute / 1440 && r.minuteOfDay == minute % 1440 && r.cedula == cedula
  }

  /** Exactly the user's rows whose date and time are that very minute, days having 1440 of them. */
  lemma {:induction false} MatchesIff(r: Row, minute: int, cedula: string)
    ensures Matches(r, minute, cedula) <==> r.cedula == cedula && minute == r.day as int * 1440 + r.minuteOfDay
    ensures When(r) == r.day as int * 1440 + r.minuteOfDay
  {
  }

  function Query(key: KeyOf, mem: Memory, table: seq<Row>, minute: int, cedula: string, kind: Kind): Memory {
    if table == [] then mem
    else
      var n := |table| - 1;
      var before := Query(key, mem, table[..n], minute, cedula, kind);
      if Matches(table[n], minute, cedula) then Show(key, before, Notice(table[n], kind)) else before
  }

  // ---------------------------------------------------------------- the run

  /**
   What the surroundings contribute to a round: the session file, the table as each of the two queries
   finds it, the time the round takes up to the reading of the clock for the sleep, and how late (or, if
   negative, early) the sleep ends.
   */
  datatype Round = Round(cedula: Option<string>, ahead: seq<Row>, now: seq<Row>, work: nat, late: int)

  /** The table as the query for this kind of notice finds it. */
  function TableFor(r: Round, kind: Kind): seq<Row> {
    match kind case Before => r.ahead case Exact => r.now
  }

  /** Rows are taken in the order in which the query returns them. */
  lemma {:induction false} QueryInOrder(key: KeyOf, mem: Memory, a: seq<Row>, b: seq<Row>, minute: int,
                                        cedula: string, kind: Kind)
    ensures Query(key, mem, a + b, minute, cedula, kind)
            == Query(key, Query(key, mem, a, minute, cedula, kind), b, minute, cedula, kind)
    decreases |b|
  {
    if b == [] {
      assert a + b == a;
    } else {
      var n := |b| - 1;
      QueryInOrder(key, mem, a, b[..n], minute, cedula, kind);
      assert (a + b)[..|a + b| - 1] == a + b[..n];
    }
  }

  /** Events five minutes ahead, then events due now; without a session, nothing. */
  function Poll(key: KeyOf, mem: Memory, r: Round, minute: int): Memory {
    if r.cedula.None? || r.cedula.value == "" then mem
    else
      var ahead := Query(key, mem, r.ahead, minute + 5, r.cedula.value, Before);
      Query(key, ahead, r.now, minute, r.cedula.value, Exact)
  }

  /** When the round after one that polled at `t` polls: `sleep(60000 - clock % 60000)`. */
  function NextPoll(t: int, r: Round): int {
    var clock := t + r.work;
    clock + (60_000 - clock % 60_000) + r.late
  }

  function PollTime(start: int, rounds: seq<Round>, k: nat): int
    requires k <= |rounds|
  {
    if k == 0 then start else NextPoll(PollTime(start, rounds, k - 1), rounds[k - 1])
  }

  /** `now` cut down to the minute. */
  function MinuteOf(t: int): (m: int)
    ensures m * 60_000 <= t < m * 60_000 + 60_000
  {
    t / 60_000
  }

  function After(key: KeyOf, start: int, rounds: seq<Round>, k: nat): Memory
    requires k <= |rounds|
  {
    if k == 0 then NOTHING
    else
      Poll(key, After(key, start, rounds, k - 1), rounds[k - 1], MinuteOf(PollTime(start, rounds, k - 1)))
  }

  class NotificadorTray {
    var eventosNotificados: set<string>
    var shown: seq<Notice>

    ghost function View(): Memory
      reads this
    {
      Memory(eventosNotificados, shown)
    }

    constructor ()
      ensures View() == NOTHING
    {
      eventosNotificados, shown := {}, [];
    }

    method NotificarEventos(f: Day -> string, table: seq<Row>, minute: int, cedula: string, kind: Kind)
      modifies this
      ensures View() == Query(Keys(f), old(View()), table, minute, cedula, kind)
    {
      var i := 0;
      while i < |table|
        invariant 0 <= i <= |table|
        invariant View() == Query(Keys(f), old(View()), table[..i], minute, cedula, kind)
      {
        assert table[..i + 1][..i] == table[..i];
        if Matches(table[i], minute, cedula) {
          var idEvento := Keys(f)(Notice(table[i], kind));
          if idEvento !in eventosNotificados {
            shown := shown + [Notice(table[i], kind)];
            eventosNotificados := eventosNotificados + {idEvento};
          }
        }
        i := i + 1;
      }
      assert table[..|table|] == table;
    }

    /** The loop of `main`, for as many rounds as the surroundings let it run. */
    method Run(f: Day -> string, start: int, rounds: seq<Round>) returns (clock: int)
      requires View() == NOTHING
      modifies this
      ensures View() == After(Keys(f), start, rounds, |rounds|)
      ensures clock == PollTime(start, rounds, |rounds|)
    {
      clock := start;
      var k := 0;
      while k < |rounds|
        invariant 0 <= k <= |rounds|
        invariant clock == PollTime(start, rounds, k)
        invariant View() == After(Keys(f), start, rounds, k)
      {
        var r := rounds[k];
        if r.cedula.Some? && r.cedula.value != "" {
          var ahora := MinuteOf(clock);
          NotificarEventos(f, r.ahead, ahora + 5, r.cedula.value, Before);
          NotificarEventos(f, r.now, ahora, r.cedula.value, Exact);
        }
        clock := clock + r.work;
        clock := clock + (60_000 - clock % 60_000) + r.late;
        k := k + 1;
      }
    }
  }

  // ---------------------------------------------------------------- nothing is shown twice

  ghost predicate Shown(shown: seq<Notice>, n: Notice) {
    exists i :: 0 <= i < |shown| && Same(shown[i], n)
  }

  /** The key set is the set of the keys shown, and no notification was shown twice. */
  ghost predicate Consistent(key: KeyOf, mem: Memory) {
    && mem.keys == (set i | 0 <= i < |mem.shown| :: key(mem.shown[i]))
    && (forall i, j :: 0 <= i < j < |mem.shown| ==> !Same(mem.shown[i], mem.shown[j]))
  }

  /** Showing an event shows it if and only if the same notification has not been shown before, to anyone. */
  lemma {:induction false} ShowIff(key: KeyOf, mem: Memory, n: Notice)
    requires Faithful(key) && Consistent(key, mem)
    ensures Consistent(key, Show(key, mem, n)) && Shown(Show(key, mem, n).shown, n)
    ensures Show(key, mem, n).shown == if Shown(mem.shown, n) then mem.shown else mem.shown + [n]
  {
    if key(n) in mem.keys {
      var i :| 0 <= i < |mem.shown| && key(mem.shown[i]) == key(n);
      assert Same(mem.shown[i], n);
    } else {
      var shown' := mem.shown + [n];
      assert shown'[|mem.shown|] == n;
      forall i | 0 <= i < |mem.shown| ensures !Same(mem.shown[i], n) {
        assert key(mem.shown[i]) in mem.keys;
      }
      KeySetSnoc(key, mem.shown, n);
    }
  }

  lemma {:induction false} KeySetSnoc(key: KeyOf, shown: seq<Notice>, n: Notice)
    ensures (set i | 0 <= i < |shown + [n]| :: key((shown + [n])[i]))
            == (set i | 0 <= i < |shown| :: key(shown[i])) + {key(n)}
  {
    var whole := shown + [n];
    var left, right := set i | 0 <= i < |whole| :: key(whole[i]), set i | 0 <= i < |shown| :: key(shown[i]);
    assert key(whole[|shown|]) in left;
    forall x | x in right ensures x in left {
      var i :| 0 <= i < |shown| && key(shown[i]) == x;
      assert key(whole[i]) in left;
    }
  }

  lemma {:induction false} ShownStays(shown: seq<Notice>, shown': seq<Notice>, n: Notice)
    requires shown <= shown' && Shown(shown, n)
    ensures Shown(shown', n)
  {
    var i :| 0 <= i < |shown| && Same(shown[i], n);
    assert Same(shown'[i], n);
  }

  lemma {:induction false} QueryKeeps(key: KeyOf, mem: Memory, table: seq<Row>, minute: int, cedula: string, kind: Kind)
    requires Faithful(key) && Consistent(key, mem)
    ensures var mem' := Query(key, mem, table, minute, cedula, kind);
            && Consistent(key, mem') && mem.shown <= mem'.shown
            && forall r :: r in table && Matches(r, minute, cedula) ==> Shown(mem'.shown, Notice(r, kind))
  {
    if table != [] {
      var n := |table| - 1;
      QueryKeeps(key, mem, table[..n], minute, cedula, kind);
      var before := Query(key, mem, table[..n], minute, cedula, kind);
      var mem' := Query(key, mem, table, minute, cedula, kind);
      if Matches(table[n], minute, cedula) {
        ShowIff(key, before, Notice(table[n], kind));
      }
      forall r | r in table && Matches(r, minute, cedula) ensures Shown(mem'.shown, Notice(r, kind)) {
        if r != table[n] {
          assert r in table[..n];
          ShownStays(before.shown, mem'.shown, Notice(r, kind));
        }
      }
    }
  }

  lemma {:induction false} PollKeeps(key: KeyOf, mem: Memory, r: Round, minute: int)
    requires Faithful(key) && Consistent(key, mem)
    ensures var mem' := Poll(key, mem, r, minute);
            Consistent(key, mem') && mem.shown <= mem'.shown
  {
    if r.cedula.Some? && r.cedula.value != "" {
      QueryKeeps(key, mem, r.ahead, minute + 5, r.cedula.value, Before);
      var ahead := Query(key, mem, r.ahead, minute + 5, r.cedula.value, Before);
      QueryKeeps(key, ahead, r.now, minute, r.cedula.value, Exact);
    }
  }

  lemma {:induction false} RunKeeps(key: KeyOf, start: int, rounds: seq<Round>, j: nat, k: nat)
    requires Faithful(key) && j <= k <= |rounds|
    ensures Consistent(key, After(key, start, rounds, k))
    ensures After(key, start, rounds, j).shown <= After(key, start, rounds, k).shown
  {
    if k > 0 {
      RunKeeps(key, start, rounds, if j < k then j else k - 1, k - 1);
      PollKeeps(key, After(key, start, rounds, k - 1), rounds[k - 1], MinuteOf(PollTime(start, rounds, k - 1)));
    }
  }

  /** How often a notification was shown. */
  function Times(shown: seq<Notice>, n: Notice): nat {
    if shown == [] then 0
    else Times(shown[..|shown| - 1], n) + if Same(shown[|shown| - 1], n) then 1 else 0
  }

  lemma {:induction false} TimesOnce(shown: seq<Notice>, n: Notice)
    requires forall i, j :: 0 <= i < j < |shown| ==> !Same(shown[i], shown[j])
    ensures Times(shown, n) == if Shown(shown, n) then 1 else 0
  {
    if shown != [] {
      var k := |shown| - 1;
      TimesOnce(shown[..k], n);
      if Same(shown[k], n) {
        assert forall i :: 0 <= i < k ==> !Same(shown[i], shown[k]);
        assert !Shown(shown[..k], n);
      } else if Shown(shown, n) {
        var i :| 0 <= i < |shown| && Same(shown[i], n);
        assert Same(shown[..k][i], n);
      }
    }
  }

  /** Over any run at all, early wake-ups, repeated minutes and changes of user included. */
  lemma {:induction false} NeverTwice(f: Day -> string, start: int, rounds: seq<Round>, n: Notice)
    requires DateFormat(f)
    ensures Times(After(Keys(f), start, rounds, |rounds|).shown, n) <= 1
    ensures var shown := After(Keys(f), start, rounds, |rounds|).shown;
            forall i, j :: 0 <= i < j < |shown| ==>
              shown[i].row.day != shown[j].row.day || shown[i].row.minuteOfDay != shown[j].row.minuteOfDay
              || shown[i].row.titulo != shown[j].row.titulo || shown[i].kind != shown[j].kind
  {
    KeysAreFaithful(f);
    RunKeeps(Keys(f), start, rounds, 0, |rounds|);
    TimesOnce(After(Keys(f), start, rounds, |rounds|).shown, n);
  }

  // ---------------------------------------------------------------- no minute is missed

  /** One round's step along the minutes: one, plus whatever the work and the late wake-up spill over. */
  lemma {:induction false} MinuteStep(t: int, r: Round)
    ensures MinuteOf(NextPoll(t, r)) == MinuteOf(t) + 1 + (t % 60_000 + r.work) / 60_000 + r.late / 60_000
  {
  }

  /** The work ends in the minute it began and the sleep ends in the minute it aims at. */
  predicate OnTime(t: int, r: Round) {
    t % 60_000 + r.work < 60_000 && 0 <= r.late < 60_000
  }

  /** When sleeps never end early, a round moves on by exactly one minute if and only if it is on time. */
  lemma {:induction false} OnTimeIff(t: int, r: Round)
    requires r.late >= 0
    ensures MinuteOf(NextPoll(t, r)) == MinuteOf(t) + 1 <==> OnTime(t, r)
    ensures MinuteOf(NextPoll(t, r)) >= MinuteOf(t) + 1
  {
    MinuteStep(t, r);
  }

  /**
   The sleep realigns to the clock: it aims at the first full minute after the round, so that a poll is as
   far into its minute as the sleep before it was late, however long the round took.
   */
  lemma {:induction false} SleepRealigns(t: int, r: Round)
    ensures var aim := NextPoll(t, r) - r.late;
            aim % 60_000 == 0 && t + r.work < aim <= t + r.work + 60_000
    ensures NextPoll(t, r) % 60_000 == r.late % 60_000
  {
    var clock := t + r.work;
    assert clock + (60_000 - clock % 60_000) == (clock / 60_000 + 1) * 60_000;
  }

  lemma {:induction false} PollOffset(start: int, rounds: seq<Round>, k: nat)
    requires 0 < k <= |rounds|
    ensures PollTime(start, rounds, k) % 60_000 == rounds[k - 1].late % 60_000
  {
    SleepRealigns(PollTime(start, rounds, k - 1), rounds[k - 1]);
  }

  /**
   What the surroundings must do for `n` rounds: a round's work, begun as late as the sleep before it ended,
   is over within the minute; and no sleep ends early or a whole minute late.
   */
  predicate Prompt(start: int, rounds: seq<Round>, n: nat)
    requires n <= |rounds|
  {
    forall k :: 0 <= k < n ==> PromptRound(start, rounds, k)
  }

  predicate PromptRound(start: int, rounds: seq<Round>, k: nat)
    requires k < |rounds|
  {
    && (if k == 0 then start % 60_000 else rounds[k - 1].late) + rounds[k].work < 60_000
    && 0 <= rounds[k].late < 60_000
  }

  lemma {:induction false} OneMorePrompt(start: int, rounds: seq<Round>, n: nat)
    requires n < |rounds| && Prompt(start, rounds, n)
    ensures Prompt(start, rounds, n + 1) <==> OnTime(PollTime(start, rounds, n), rounds[n])
  {
    if n > 0 {
      PollOffset(start, rounds, n);
      assert PromptRound(start, rounds, n - 1);
    }
    assert PromptRound(start, rounds, n) <==> OnTime(PollTime(start, rounds, n), rounds[n]);
  }

  lemma {:induction false} EveryMinutePolled(start: int, rounds: seq<Round>, k: nat, n: nat)
    requires k <= n <= |rounds| && Prompt(start, rounds, n)
    ensures MinuteOf(PollTime(start, rounds, k)) == MinuteOf(start) + k
  {
    if k > 0 {
      EveryMinutePolled(start, rounds, k - 1, n);
      assert Prompt(start, rounds, k);
      OneMorePrompt(start, rounds, k - 1);
      OnTimeIff(PollTime(start, rounds, k - 1), rounds[k - 1]);
    }
  }

  /**
   When sleeps never end early, n rounds take n minutes at least, and exactly n, no minute left out, if and
   only if they are prompt.
   */
  lemma {:induction false} NoMinuteSkippedIff(start: int, rounds: seq<Round>, n: nat)
    requires n <= |rounds| && forall k :: 0 <= k < n ==> rounds[k].late >= 0
    ensures MinuteOf(PollTime(start, rounds, n)) >= MinuteOf(start) + n
    ensures MinuteOf(PollTime(start, rounds, n)) == MinuteOf(start) + n <==> Prompt(start, rounds, n)
  {
    if n > 0 {
      NoMinuteSkippedIff(start, rounds, n - 1);
      OnTimeIff(PollTime(start, rounds, n - 1), rounds[n - 1]);
      if Prompt(start, rounds, n - 1) {
        OneMorePrompt(start, rounds, n - 1);
      }
    }
  }

  // ---------------------------------------------------------------- every event, exactly once per kind

  lemma {:induction false} MatchesItself(r: Row)
    ensures Matches(r, When(r), r.cedula)
  {
  }

  /** Minutes by which a reminder comes early. */
  function Lead(kind: Kind): int {
    match kind case Before => 5 case Exact => 0
  }

  /** Round `k` finds the row in the table, for the user of the session, in the minute the notice is for. */
  ghost predicate DueIn(start: int, rounds: seq<Round>, k: nat, n: Notice)
    requires k < |rounds|
  {
    && n.row in TableFor(rounds[k], n.kind) && rounds[k].cedula == Some(n.row.cedula) && n.row.cedula != ""
    && When(n.row) == MinuteOf(PollTime(start, rounds, k)) + Lead(n.kind)
  }

  /** By the end of a round every notice due in it has been shown, or one with the same key has. */
  lemma {:induction false} PolledIsShown(key: KeyOf, start: int, rounds: seq<Round>, k: nat, n: Notice)
    requires Faithful(key) && k < |rounds| && DueIn(start, rounds, k, n)
    ensures Shown(After(key, start, rounds, k + 1).shown, n)
  {
    var mem, r, cedula := After(key, start, rounds, k), rounds[k], n.row.cedula;
    var minute := MinuteOf(PollTime(start, rounds, k));
    RunKeeps(key, start, rounds, 0, k);
    MatchesItself(n.row);
    QueryKeeps(key, mem, r.ahead, minute + 5, cedula, Before);
    var ahead := Query(key, mem, r.ahead, minute + 5, cedula, Before);
    QueryKeeps(key, ahead, r.now, minute, cedula, Exact);
    if n.kind == Before {
      ShownStays(ahead.shown, After(key, start, rounds, k + 1).shown, n);
    }
  }

  /** A query only adds, and only rows of the table that match. */
  lemma {:induction false} QueryAddsMatches(key: KeyOf, mem: Memory, table: seq<Row>, minute: int, cedula: string,
                                            kind: Kind)
    ensures var mem' := Query(key, mem, table, minute, cedula, kind);
            && mem.shown <= mem'.shown
            && forall i :: |mem.shown| <= i < |mem'.shown| ==>
                 var m := mem'.shown[i];
                 m.kind == kind && m.row in table && m.row.cedula == cedula && When(m.row) == minute
  {
    if table != [] {
      QueryAddsMatches(key, mem, table[..|table| - 1], minute, cedula, kind);
    }
  }

  /** Whatever a round shows was due in that very round. */
  lemma {:induction false} ShownWasDue(key: KeyOf, start: int, rounds: seq<Round>, k: nat, i: nat)
    requires k < |rounds|
    requires |After(key, start, rounds, k).shown| <= i < |After(key, start, rounds, k + 1).shown|
    ensures DueIn(start, rounds, k, After(key, start, rounds, k + 1).shown[i])
  {
    var mem, r, minute := After(key, start, rounds, k), rounds[k], MinuteOf(PollTime(start, rounds, k));
    if r.cedula.Some? && r.cedula.value != "" {
      QueryAddsMatches(key, mem, r.ahead, minute + 5, r.cedula.value, Before);
      var ahead := Query(key, mem, r.ahead, minute + 5, r.cedula.value, Before);
      QueryAddsMatches(key, ahead, r.now, minute, r.cedula.value, Exact);
    }
  }

  /** Within a round all notices five minutes ahead come before those due now. */
  lemma {:induction false} AheadComesFirst(key: KeyOf, start: int, rounds: seq<Round>, k: nat, i: nat, j: nat)
    requires k < |rounds|
    requires |After(key, start, rounds, k).shown| <= i < j < |After(key, start, rounds, k + 1).shown|
    requires After(key, start, rounds, k + 1).shown[j].kind == Before
    ensures After(key, start, rounds, k + 1).shown[i].kind == Before
  {
    var mem, r, minute := After(key, start, rounds, k), rounds[k], MinuteOf(PollTime(start, rounds, k));
    if r.cedula.Some? && r.cedula.value != "" {
      QueryAddsMatches(key, mem, r.ahead, minute + 5, r.cedula.value, Before);
      var ahead := Query(key, mem, r.ahead, minute + 5, r.cedula.value, Before);
      QueryAddsMatches(key, ahead, r.now, minute, r.cedula.value, Exact);
    }
  }

  /** A notice with this key was due in one of the first `k` rounds. */
  ghost predicate WasDue(start: int, rounds: seq<Round>, k: nat, n: Notice)
    requires k <= |rounds|
  {
    exists j, m :: 0 <= j < k && Same(m, n) && DueIn(start, rounds, j, m)
  }

  /** Over any run at all, what has been shown is exactly what was due in some round so far. */
  lemma {:induction false} ShownIffDue(key: KeyOf, start: int, rounds: seq<Round>, k: nat, n: Notice)
    requires Faithful(key) && k <= |rounds|
    ensures Shown(After(key, start, rounds, k).shown, n) <==> WasDue(start, rounds, k, n)
  {
    if i :| 0 <= i < |After(key, start, rounds, k).shown| && Same(After(key, start, rounds, k).shown[i], n) {
      ShownWasDueBefore(key, start, rounds, k, i);
    }
    if j, m :| 0 <= j < k && Same(m, n) && DueIn(start, rounds, j, m) {
      DueStaysShown(key, start, rounds, j, k, m, n);
    }
  }

  /** Every notice shown was itself due in some earlier round: that very row, for that very user. */
  lemma {:induction false} ShownWasDueBefore(key: KeyOf, start: int, rounds: seq<Round>, k: nat, i: nat)
    requires Faithful(key) && k <= |rounds| && i < |After(key, start, rounds, k).shown|
    ensures exists j :: 0 <= j < k && DueIn(start, rounds, j, After(key, start, rounds, k).shown[i])
  {
    if k > 0 {
      RunKeeps(key, start, rounds, k - 1, k);
      if i < |After(key, start, rounds, k - 1).shown| {
        ShownWasDueBefore(key, start, rounds, k - 1, i);
      } else {
        ShownWasDue(key, start, rounds, k - 1, i);
      }
    }
  }

  lemma {:induction false} DueStaysShown(key: KeyOf, start: int, rounds: seq<Round>, j: nat, k: nat,
                                         m: Notice, n: Notice)
    requires Faithful(key) && j < k <= |rounds| && Same(m, n) && DueIn(start, rounds, j, m)
    ensures Shown(After(key, start, rounds, k).shown, n)
  {
    PolledIsShown(key, start, rounds, j, m);
    RunKeeps(key, start, rounds, j + 1, k);
    ShownStays(After(key, start, rounds, j + 1).shown, After(key, start, rounds, k).shown, m);
    var i :| 0 <= i < |After(key, start, rounds, k).shown| && Same(After(key, start, rounds, k).shown[i], m);
    assert Same(After(key, start, rounds, k).shown[i], n);
  }

  // ---------------------------------------------------------------- which due notices stay silent

  /** Round `k` shows a notice of this date, time, title, kind and user. */
  ghost predicate ShownNow(key: KeyOf, start: int, rounds: seq<Round>, k: nat, n: Notice)
    requires k < |rounds|
  {
    var after := After(key, start, rounds, k + 1).shown;
    exists i :: |After(key, start, rounds, k).shown| <= i < |after|
                && Same(after[i], n) && after[i].row.cedula == n.row.cedula
  }

  /** A notice due in a round is shown in that round, unless one with the same key was due in a round before. */
  lemma {:induction false} DueIsShownIff(key: KeyOf, start: int, rounds: seq<Round>, k: nat, n: Notice)
    requires Faithful(key) && k < |rounds| && DueIn(start, rounds, k, n)
    ensures ShownNow(key, start, rounds, k, n) <==> !WasDue(start, rounds, k, n)
  {
    var before, after := After(key, start, rounds, k).shown, After(key, start, rounds, k + 1).shown;
    PolledIsShown(key, start, rounds, k, n);
    ShownIffDue(key, start, rounds, k, n);
    RunKeeps(key, start, rounds, k, k + 1);
    var i :| 0 <= i < |after| && Same(after[i], n);
    if i < |before| {
      assert Same(before[i], n);
      assert forall j :: |before| <= j < |after| ==> !Same(after[i], after[j]);
    } else {
      ShownWasDue(key, start, rounds, k, i);
      assert forall j :: 0 <= j < |before| ==> before[j] == after[j] && !Same(after[j], after[i]);
    }
  }

  /** A notice silenced that way was due at an earlier poll of the very same minute. */
  lemma {:induction false} SilencedInOneMinute(start: int, rounds: seq<Round>, k: nat, n: Notice)
    requires k < |rounds| && DueIn(start, rounds, k, n) && WasDue(start, rounds, k, n)
    ensures exists j :: 0 <= j < k && MinuteOf(PollTime(start, rounds, j)) == MinuteOf(PollTime(start, rounds, k))
  {
    var j, m :| 0 <= j < k && Same(m, n) && DueIn(start, rounds, j, m);
    assert When(m.row) == When(n.row);
  }

  lemma {:induction false} MinutesIncrease(start: int, rounds: seq<Round>, j: nat, k: nat)
    requires j < k <= |rounds| && forall i :: j <= i < k ==> rounds[i].late >= 0
    ensures MinuteOf(PollTime(start, rounds, j)) < MinuteOf(PollTime(start, rounds, k))
  {
    if j < k - 1 {
      MinutesIncrease(start, rounds, j, k - 1);
    }
    MinuteStep(PollTime(start, rounds, k - 1), rounds[k - 1]);
  }

  /**
   If no sleep so far ended early, every due notice is shown in the very round in which it is due, for its
   own user and not before, whoever was in session earlier and however long the rounds took.
   */
  lemma {:induction false} DueIsShownInItsRound(f: Day -> string, start: int, rounds: seq<Round>, k: nat,
                                                n: Notice)
    requires DateFormat(f) && k < |rounds| && DueIn(start, rounds, k, n)
    requires forall j :: 0 <= j < k ==> rounds[j].late >= 0
    ensures ShownNow(Keys(f), start, rounds, k, n)
    ensures !Shown(After(Keys(f), start, rounds, k).shown, n)
  {
    KeysAreFaithful(f);
    DueIsShownIff(Keys(f), start, rounds, k, n);
    ShownIffDue(Keys(f), start, rounds, k, n);
    if WasDue(start, rounds, k, n) {
      SilencedInOneMinute(start, rounds, k, n);
      var j :| 0 <= j < k && MinuteOf(PollTime(start, rounds, j)) == MinuteOf(PollTime(start, rounds, k));
      MinutesIncrease(start, rounds, j, k);
    }
  }

  /** Its user has been shown a notice of this date, time, title and kind. */
  ghost predicate Told(shown: seq<Notice>, n: Notice) {
    exists i :: 0 <= i < |shown| && Same(shown[i], n) && shown[i].row.cedula == n.row.cedula
  }

  /**
   If the user of a due notice is not told, then another user was in session at an earlier poll of the very
   same minute, and a sleep ended early in between.
   */
  lemma {:induction false} UntoldMeansSessionChanged(key: KeyOf, start: int, rounds: seq<Round>, k: nat, n: Notice)
    requires Faithful(key) && k < |rounds| && DueIn(start, rounds, k, n)
    requires !Told(After(key, start, rounds, k + 1).shown, n)
    ensures exists j, i :: 0 <= j <= i < k && rounds[i].late < 0 && rounds[j].cedula != rounds[k].cedula
                           && MinuteOf(PollTime(start, rounds, j)) == MinuteOf(PollTime(start, rounds, k))
  {
    var before, after := After(key, start, rounds, k).shown, After(key, start, rounds, k + 1).shown;
    RunKeeps(key, start, rounds, k, k + 1);
    DueIsShownIff(key, start, rounds, k, n);
    ShownIffDue(key, start, rounds, k, n);
    var x :| 0 <= x < |before| && Same(before[x], n);
    assert before[x] == after[x];
    ShownWasDueBefore(key, start, rounds, k, x);
    var j :| 0 <= j < k && DueIn(start, rounds, j, before[x]);
    assert When(before[x].row) == When(n.row);
    if forall i :: j <= i < k ==> rounds[i].late >= 0 {
      MinutesIncrease(start, rounds, j, k);
    }
  }

  /**
   How a due event does stay silent: the session changes between two polls of one minute, the first sleep
   having ended a millisecond early, and the second user's event has the date, time and title of the first
   user's.
   */
  lemma {:induction false} SecondUserMissesEvent(f: Day -> string, ra: Row, rb: Row)
    requires DateFormat(f)
    requires ra.cedula != "" && rb.cedula != "" && ra.cedula != rb.cedula
    requires When(ra) == When(rb) == 0 && ra.titulo == rb.titulo
    ensures var rounds := [Round(Some(ra.cedula), [ra], [ra], 0, -1), Round(Some(rb.cedula), [rb], [rb], 0, 0)];
            && DueIn(0, rounds, 1, Notice(rb, Exact))
            && forall i :: 0 <= i < |After(Keys(f), 0, rounds, 2).shown| ==>
                 After(Keys(f), 0, rounds, 2).shown[i].row.cedula != rb.cedula
  {
    var rounds := [Round(Some(ra.cedula), [ra], [ra], 0, -1), Round(Some(rb.cedula), [rb], [rb], 0, 0)];
    assert PollTime(0, rounds, 1) == NextPoll(0, rounds[0]) == 59_999;
    assert Same(Notice(ra, Exact), Notice(rb, Exact)) && DueIn(0, rounds, 0, Notice(ra, Exact));
    assert WasDue(0, rounds, 1, Notice(rb, Exact));
    SilentForGood(f, rounds, rb);
  }

  lemma {:induction false} SilentForGood(f: Day -> string, rounds: seq<Round>, r: Row)
    requires DateFormat(f) && |rounds| == 2
    requires rounds[1].now == [r] && rounds[1].ahead == [r] && rounds[0].cedula != Some(r.cedula)
    requires DueIn(0, rounds, 1, Notice(r, Exact)) && WasDue(0, rounds, 1, Notice(r, Exact))
    ensures forall i :: 0 <= i < |After(Keys(f), 0, rounds, 2).shown| ==>
              After(Keys(f), 0, rounds, 2).shown[i].row.cedula != r.cedula
  {
    var before, after := After(Keys(f), 0, rounds, 1).shown, After(Keys(f), 0, rounds, 2).shown;
    KeysAreFaithful(f);
    DueIsShownIff(Keys(f), 0, rounds, 1, Notice(r, Exact));
    RunKeeps(Keys(f), 0, rounds, 1, 2);
    forall i | 0 <= i < |after| ensures after[i].row.cedula != r.cedula {
      if i < |before| {
        ShownWasDue(Keys(f), 0, rounds, 0, i);
        assert after[i] == before[i];
      } else {
        ShownWasDue(Keys(f), 0, rounds, 1, i);
      }
    }
  }

  // ---------------------------------------------------------------- several processes

  /** Every login starts a process of its own, with no keys yet; all poll one session file and one table. */
  datatype Process = Process(start: int, rounds: seq<Round>)

  function ShowingsOf(key: KeyOf, ps: seq<Process>, n: Notice): nat {
    if ps == [] then 0
    else
      var p := ps[|ps| - 1];
      ShowingsOf(key, ps[..|ps| - 1], n) + Times(After(key, p.start, p.rounds, |p.rounds|).shown, n)
  }

  /** The processes in one of whose rounds a notice with this key was due. */
  ghost function DueFor(ps: seq<Process>, n: Notice): nat {
    if ps == [] then 0
    else
      var p := ps[|ps| - 1];
      DueFor(ps[..|ps| - 1], n) + if WasDue(p.start, p.rounds, |p.rounds|, n) then 1 else 0
  }

  /** Over all processes a notice is shown exactly once by each one that ever found it due. */
  lemma {:induction false} OncePerProcess(f: Day -> string, ps: seq<Process>, n: Notice)
    requires DateFormat(f)
    ensures ShowingsOf(Keys(f), ps, n) == DueFor(ps, n)
  {
    if ps != [] {
      var p := ps[|ps| - 1];
      OncePerProcess(f, ps[..|ps| - 1], n);
      KeysAreFaithful(f);
      RunKeeps(Keys(f), p.start, p.rounds, 0, |p.rounds|);
      TimesOnce(After(Keys(f), p.start, p.rounds, |p.rounds|).shown, n);
      ShownIffDue(Keys(f), p.start, p.rounds, |p.rounds|, n);
    }
  }

  // ---------------------------------------------------------------- steady runs

  /** One user in the session file, one stable row, prompt rounds. */
  ghost predicate Steady(start: int, rounds: seq<Round>, r: Row) {
    && Prompt(start, rounds, |rounds|)
    && r.cedula != ""
    && forall k :: 0 <= k < |rounds| ==>
         rounds[k].cedula == Some(r.cedula) && r in rounds[k].ahead && r in rounds[k].now
  }

  /** In a steady run a row's notice is due in one round only, and has been shown from its end on. */
  lemma {:induction false} OnceFor(key: KeyOf, start: int, rounds: seq<Round>, n: Notice, due: nat, k: nat)
    requires Faithful(key) && Steady(start, rounds, n.row) && due < |rounds| && k <= |rounds|
    requires When(n.row) == MinuteOf(start) + due + Lead(n.kind)
    ensures Times(After(key, start, rounds, k).shown, n) == if due < k then 1 else 0
  {
    EveryMinutePolled(start, rounds, due, |rounds|);
    assert DueIn(start, rounds, due, n);
    ShownIffDue(key, start, rounds, k, n);
    if j, m :| 0 <= j < k && Same(m, n) && DueIn(start, rounds, j, m) {
      EveryMinutePolled(start, rounds, j, |rounds|);
      assert j == due;
    }
    assert due < k ==> Same(n, n);
    RunKeeps(key, start, rounds, 0, k);
    TimesOnce(After(key, start, rounds, k).shown, n);
  }

  /**
   In a steady run the reminder five minutes ahead and the one at the minute itself are each shown exactly
   once, in the round that polls five minutes before and in the round that polls the minute: not at all by
   the rounds before, never again by the rounds after, midnight in between or not.
   */
  lemma {:induction false} ExactlyOnce(f: Day -> string, start: int, rounds: seq<Round>, r: Row, k: nat)
    requires DateFormat(f) && Steady(start, rounds, r) && k <= |rounds|
    requires MinuteOf(start) <= When(r) - 5 && When(r) < MinuteOf(start) + |rounds|
    ensures var shown := After(Keys(f), start, rounds, k).shown;
            && Times(shown, Notice(r, Before)) == (if When(r) - 5 < MinuteOf(start) + k then 1 else 0)
            && Times(shown, Notice(r, Exact)) == (if When(r) < MinuteOf(start) + k then 1 else 0)
  {
    KeysAreFaithful(f);
    OnceFor(Keys(f), start, rounds, Notice(r, Before), When(r) - 5 - MinuteOf(start), k);
    OnceFor(Keys(f), start, rounds, Notice(r, Exact), When(r) - MinuteOf(start), k);
  }

  /** The key does not name the user: a second user's event of the same date, time and title stays silent. */
  lemma {:induction false} SecondUserStaysSilent(f: Day -> string, mem: Memory, n: Notice, other: string)
    requires DateFormat(f) && Consistent(Keys(f), mem) && Shown(mem.shown, n)
    ensures Show(Keys(f), mem, n.(row := n.row.(cedula := other))).shown == mem.shown
  {
    KeysAreFaithful(f);
    var twin := n.(row := n.row.(cedula := other));
    assert Same(n, twin);
    var i :| 0 <= i < |mem.shown| && Same(mem.shown[i], n);
    assert Same(mem.shown[i], twin);
    ShowIff(Keys(f), mem, twin);
  }
}
