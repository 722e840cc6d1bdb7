/**
 The in-window reminder of `NotificadorEventos.java`: a thread that waits for the next full minute once
 and then polls the cached list, sleeping a full minute after every round. Rounds take time, so its
 polls drift along the minutes.

 Time is an integer clock in nanoseconds (60 000 000 000 a minute), counted in the local zone. No round
 throws.
 */
module InAppNotifier {
  import opened Common

  /** An event with its date and time as a count of seconds. */
  datatype Evento = Evento(segundos: int, titulo: string, desc: string)

  datatype Kind = Now | InFiveMinutes

  datatype Alert = Alert(evento: Evento, kind: Kind)

  // ---------------------------------------------------------------- when the rounds happen

  /** `now` cut down to the minute. */
  function MinuteOf(t: int): (m: int)
    ensures m * 60_000_000_000 <= t < m * 60_000_000_000 + 60_000_000_000
  {
    t / 60_000_000_000
  }

  /** The first full minute after `t`. */
  function Boundary(t: int): int {
    (MinuteOf(t) + 1) * 60_000_000_000
  }

  /** `esperarInicioDelMinuto`: the wait is cut down to whole milliseconds; sleeps may end late. */
  function FirstPoll(start: int, late: nat): int {
    start + (Boundary(start) - start) / 1_000_000 * 1_000_000 + late
  }

  /**
   What the surroundings contribute to a round: the cached list, if there is one, the time from this
   poll to the next apart from the nominal sleep, and whether `detener` is called before the next test.
   */
  datatype Round = Round(eventos: Option<seq<Evento>>, work: nat, stopped: bool)

  function PollTime(first: int, rounds: seq<Round>, k: nat): int
    requires k <= |rounds|
  {
    if k == 0 then first else PollTime(first, rounds, k - 1) + rounds[k - 1].work + 60_000_000_000
  }

  function Work(rounds: seq<Round>, k: nat): nat
    requires k <= |rounds|
  {
    if k == 0 then 0 else Work(rounds, k - 1) + rounds[k - 1].work
  }

  /**
   The wait aims at the first full minute after the start, but is a whole number of milliseconds: without
   oversleeping the first poll is less than a millisecond before the full minute.
   */
  lemma {:induction false} FirstPollNearBoundary(start: int, late: nat)
    ensures var aim := FirstPoll(start, late) - late;
            && Boundary(start) - 1_000_000 < aim <= Boundary(start) && (aim - start) % 1_000_000 == 0
    ensures Boundary(start) % 60_000_000_000 == 0 && start < Boundary(start) <= start + 60_000_000_000
    ensures Boundary(start) - 1_000_000 < FirstPoll(start, late) <= Boundary(start) + late
    ensures MinuteOf(FirstPoll(start, late)) == MinuteOf(start) <==> late < (Boundary(start) - start) % 1_000_000
  {
  }

  /** The clock is never looked at again: every poll is a nominal minute and the round's work after the last. */
  lemma {:induction false} PollTimeIs(first: int, rounds: seq<Round>, k: nat)
    requires k <= |rounds|
    ensures PollTime(first, rounds, k) == first + k * 60_000_000_000 + Work(rounds, k)
    ensures k == 0 ==> PollTime(first, rounds, k) == first && Work(rounds, k) == 0
    ensures k > 0 ==> Work(rounds, k) - Work(rounds, k - 1) == rounds[k - 1].work
    ensures k > 0 ==>
              PollTime(first, rounds, k) - PollTime(first, rounds, k - 1) == 60_000_000_000 + rounds[k - 1].work
  {
    if k > 0 {
      PollTimeIs(first, rounds, k - 1);
    }
  }

  lemma {:induction false} MinuteAfter(first: int, k: int, w: int)
    ensures MinuteOf(first + k * 60_000_000_000 + w)
            == MinuteOf(first) + k + (first % 60_000_000_000 + w) / 60_000_000_000
  {
  }

  /** The drift law: round k polls k minutes after the first, plus the whole minutes of work gathered so far. */
  lemma {:induction false} Drift(first: int, rounds: seq<Round>, k: nat)
    requires k <= |rounds|
    ensures MinuteOf(PollTime(first, rounds, k))
            == MinuteOf(first) + k + (first % 60_000_000_000 + Work(rounds, k)) / 60_000_000_000
  {
    PollTimeIs(first, rounds, k);
    MinuteAfter(first, k, Work(rounds, k));
  }

  lemma {:induction false} WorkGrows(rounds: seq<Round>, j: nat, k: nat)
    requires j <= k <= |rounds|
    ensures Work(rounds, j) <= Work(rounds, k)
  {
    if j < k {
      WorkGrows(rounds, j, k - 1);
    }
  }

  /** No minute is polled twice. */
  lemma {:induction false} MinutesIncrease(first: int, rounds: seq<Round>, j: nat, k: nat)
    requires j < k <= |rounds|
    ensures MinuteOf(PollTime(first, rounds, j)) + (k - j) <= MinuteOf(PollTime(first, rounds, k))
  {
    Drift(first, rounds, j);
    Drift(first, rounds, k);
    WorkGrows(rounds, j, k);
  }

  // ---------------------------------------------------------------- what a round shows

  /** Seconds included: an event is due in a minute only if its own seconds are zero. */
  predicate Due(e: Evento, minute: int, kind: Kind) {
    e.segundos - (if kind == InFiveMinutes then 300 else 0) == minute * 60
  }

  function AlertsFor(eventos: seq<Evento>, minute: int): seq<Alert> {
    if eventos == [] then []
    else
      var n := |eventos| - 1;
      var e, before := eventos[n], AlertsFor(eventos[..n], minute);
      if Due(e, minute, Now) then before + [Alert(e, Now)]
      else if Due(e, minute, InFiveMinutes) then before + [Alert(e, InFiveMinutes)]
      else before
  }

  /** Alerts come in the order of the list. */
  lemma {:induction false} AlertsInOrder(a: seq<Evento>, b: seq<Evento>, minute: int)
    ensures AlertsFor(a + b, minute) == AlertsFor(a, minute) + AlertsFor(b, minute)
    decreases |b|
  {
    if b == [] {
      assert a + b == a;
    } else {
      var n := |b| - 1;
      AlertsInOrder(a, b[..n], minute);
      assert (a + b)[..|a + b| - 1] == a + b[..n];
    }
  }

  function RoundAlerts(r: Round, minute: int): seq<Alert> {
    match r.eventos case None => [] case Some(eventos) => AlertsFor(eventos, minute)
  }

  /** The minute each round polls. */
  function PollMinutes(first: int, rounds: seq<Round>): (m: seq<int>)
    ensures |m| == |rounds|
  {
    seq(|rounds|, k requires 0 <= k < |rounds| => MinuteOf(PollTime(first, rounds, k)))
  }

  function Alerts(minutes: seq<int>, rounds: seq<Round>, k: nat): seq<Alert>
    requires k <= |rounds| == |minutes|
  {
    if k == 0 then [] else Alerts(minutes, rounds, k - 1) + RoundAlerts(rounds[k - 1], minutes[k - 1])
  }

  lemma {:induction false} Append<T>(a: seq<T>, b: seq<T>, c: seq<T>)
    ensures (a + b) + c == a + (b + c)
  {
  }

  class NotificadorEventos {
    var ejecutando: bool
    var alerts: seq<Alert>

    constructor ()
      ensures ejecutando && alerts == []
    {
      ejecutando, alerts := true, [];
    }

    method Detener()
      modifies this`ejecutando
      ensures !ejecutando
    {
      ejecutando := false;
    }

    method MostrarPendientes(eventos: seq<Evento>, ahora: int)
      modifies this`alerts
      ensures alerts == old(alerts) + AlertsFor(eventos, ahora)
    {
      var i := 0;
      while i < |eventos|
        invariant 0 <= i <= |eventos|
        invariant alerts == old(alerts) + AlertsFor(eventos[..i], ahora)
      {
        var evento := eventos[i];
        assert eventos[..i + 1][..i] == eventos[..i];
        if evento.segundos == ahora * 60 {
          alerts := alerts + [Alert(evento, Now)];
        } else if evento.segundos - 300 == ahora * 60 {
          alerts := alerts + [Alert(evento, InFiveMinutes)];
        }
        i := i + 1;
      }
      assert eventos[..|eventos|] == eventos;
    }

    /** The body of the loop up to the sleep. */
    method Ronda(r: Round, ahora: int)
      modifies this`alerts
      ensures alerts == old(alerts) + RoundAlerts(r, ahora)
    {
      if r.eventos.Some? {
        MostrarPendientes(r.eventos.value, ahora);
      }
    }

    /**
     `run`, for as long as the surroundings describe: it ends with the first round during which the
     thread is told to stop, and has no round at all if told so before or, `early`, during the first wait.
     */
    method Run(start: int, late: nat, early: bool, rounds: seq<Round>) returns (k: nat)
      modifies this
      ensures k <= |rounds| && (forall i :: 0 <= i < k - 1 ==> !rounds[i].stopped)
      ensures early || !old(ejecutando) ==> k == 0
      ensures k < |rounds| ==> if k == 0 then early || !old(ejecutando) else rounds[k - 1].stopped
      ensures alerts == old(alerts) + Alerts(PollMinutes(FirstPoll(start, late), rounds), rounds, k)
    {
      ghost var before := alerts;
      var first := FirstPoll(start, late);
      if early {
        Detener();
      }
      var clock := first;
      ghost var minutes := PollMinutes(first, rounds);
      k := 0;
      while ejecutando && k < |rounds|
        invariant 0 <= k <= |rounds|
        invariant clock == PollTime(first, rounds, k)
        invariant alerts == before + Alerts(minutes, rounds, k)
        invariant ejecutando <==> if k == 0 then !early && old(ejecutando) else !rounds[k - 1].stopped
        invariant early || !old(ejecutando) ==> k == 0
        invariant forall i :: 0 <= i < k - 1 ==> !rounds[i].stopped
      {
        var r := rounds[k];
        assert MinuteOf(clock) == minutes[k];
        Ronda(r, MinuteOf(clock));
        Append(before, Alerts(minutes, rounds, k), RoundAlerts(r, minutes[k]));
        clock := clock + r.work + 60_000_000_000;
        if r.stopped {
          Detener();
        }
        k := k + 1;
      }
    }
  }

  // ---------------------------------------------------------------- how often an event is announced

  function Count<T(==)>(s: seq<T>, x: T): nat {
    if s == [] then 0 else Count(s[..|s| - 1], x) + if s[|s| - 1] == x then 1 else 0
  }

  lemma {:induction false} CountConcat<T>(s: seq<T>, t: seq<T>, x: T)
    ensures Count(s + t, x) == Count(s, x) + Count(t, x)
  {
    if t == [] {
      assert s + t == s;
    } else {
      CountConcat(s, t[..|t| - 1], x);
      assert (s + t)[..|s + t| - 1] == s + t[..|t| - 1];
    }
  }

  /** In its minute every listed copy of an event is announced; in any other minute none is. */
  lemma {:induction false} CountInRound(eventos: seq<Evento>, minute: int, a: Alert)
    ensures Count(AlertsFor(eventos, minute), a)
            == if a.evento.segundos == minute * 60 + (if a.kind == InFiveMinutes then 300 else 0)
               then Count(eventos, a.evento) else 0
  {
    if eventos != [] {
      var n := |eventos| - 1;
      CountInRound(eventos[..n], minute, a);
      var e, before := eventos[n], AlertsFor(eventos[..n], minute);
      if Due(e, minute, Now) {
        CountConcat(before, [Alert(e, Now)], a);
        CountOne(Alert(e, Now), a);
      } else if Due(e, minute, InFiveMinutes) {
        CountConcat(before, [Alert(e, InFiveMinutes)], a);
        CountOne(Alert(e, InFiveMinutes), a);
      }
    }
  }

  lemma {:induction false} CountOne<T>(y: T, x: T)
    ensures Count([y], x) == if x == y then 1 else 0
  {
    assert [y][..0] == [];
  }

  /** How many copies of the event the list holds. */
  function CopiesIn(lista: Option<seq<Evento>>, e: Evento): nat {
    match lista case None => 0 case Some(eventos) => Count(eventos, e)
  }

  /** How many copies of the event the list of a round holds. */
  function Listed(r: Round, e: Evento): nat {
    CopiesIn(r.eventos, e)
  }

  ghost predicate Increasing(minutes: seq<int>) {
    forall i, j :: 0 <= i < j < |minutes| ==> minutes[i] < minutes[j]
  }

  lemma {:induction false} PollMinutesIncrease(first: int, rounds: seq<Round>)
    ensures Increasing(PollMinutes(first, rounds))
  {
    forall i, j | 0 <= i < j < |rounds|
      ensures PollMinutes(first, rounds)[i] < PollMinutes(first, rounds)[j]
    {
      MinutesIncrease(first, rounds, i, j);
    }
  }

  /** The one round of the first `k` that polls the alert's minute, if any; else `k`. */
  ghost predicate IsRoundOf(minutes: seq<int>, k: nat, a: Alert, i: nat)
    requires k <= |minutes|
  {
    && i <= k
    && (i < k ==> Due(a.evento, minutes[i], a.kind))
    && (i == k ==> forall j :: 0 <= j < k ==> !Due(a.evento, minutes[j], a.kind))
  }

  lemma {:induction false} OneMoreRound(minutes: seq<int>, rounds: seq<Round>, k: nat, a: Alert)
    requires k < |rounds| == |minutes|
    ensures Count(Alerts(minutes, rounds, k + 1), a)
            == Count(Alerts(minutes, rounds, k), a)
               + if Due(a.evento, minutes[k], a.kind) then Listed(rounds[k], a.evento) else 0
  {
    CountConcat(Alerts(minutes, rounds, k), RoundAlerts(rounds[k], minutes[k]), a);
    if rounds[k].eventos.Some? {
      CountInRound(rounds[k].eventos.value, minutes[k], a);
    }
  }

  lemma {:induction false} AnnouncedInItsRound(minutes: seq<int>, rounds: seq<Round>, k: nat, a: Alert, i: nat)
    requires k <= |rounds| == |minutes| && Increasing(minutes) && IsRoundOf(minutes, k, a, i)
    ensures Count(Alerts(minutes, rounds, k), a) == if i < k then Listed(rounds[i], a.evento) else 0
  {
    if k > 0 {
      OneMoreRound(minutes, rounds, k - 1, a);
      AnnouncedInItsRound(minutes, rounds, k - 1, a, if i < k then i else k - 1);
    }
  }

  /**
   Over a whole run an alert is raised in one round at most: as often as that round's list holds the
   event, and never if the drift skipped its minute.
   */
  lemma {:induction false} AnnouncedOnce(first: int, rounds: seq<Round>, k: nat, a: Alert, i: nat)
    requires k <= |rounds| && IsRoundOf(PollMinutes(first, rounds), k, a, i)
    ensures Count(Alerts(PollMinutes(first, rounds), rounds, k), a)
            == if i < k then Listed(rounds[i], a.evento) else 0
    ensures forall j :: 0 <= j < k && j != i ==> !Due(a.evento, PollMinutes(first, rounds)[j], a.kind)
    ensures i < k ==>
              var lead := if a.kind == InFiveMinutes then 300 else 0;
              a.evento.segundos == MinuteOf(PollTime(first, rounds, i)) * 60 + lead
  {
    PollMinutesIncrease(first, rounds);
    AnnouncedInItsRound(PollMinutes(first, rounds), rounds, k, a, i);
  }

  // ---------------------------------------------------------------- several threads, one cache

  /** A notifier thread; every window opened starts one, and none is ever stopped. */
  datatype Hilo = Hilo(first: int, rounds: seq<Round>)

  /** The cached list over time. */
  type Cache = int -> Option<seq<Evento>>

  /** All lists the thread iterates are those the cache holds when it polls. */
  ghost predicate Reads(h: Hilo, cache: Cache) {
    forall k :: 0 <= k < |h.rounds| ==> h.rounds[k].eventos == cache(PollTime(h.first, h.rounds, k))
  }

  ghost predicate AllRead(hs: seq<Hilo>, cache: Cache) {
    hs == [] || (AllRead(hs[..|hs| - 1], cache) && Reads(hs[|hs| - 1], cache))
  }

  /** How often the thread raises the alert in all its rounds. */
  function AlertsOf(h: Hilo, a: Alert): nat {
    Count(Alerts(PollMinutes(h.first, h.rounds), h.rounds, |h.rounds|), a)
  }

  predicate Polls(h: Hilo, minute: int) {
    minute in PollMinutes(h.first, h.rounds)
  }

  function TotalAlerts(hs: seq<Hilo>, a: Alert): nat {
    if hs == [] then 0
    else
      var h := hs[|hs| - 1];
      TotalAlerts(hs[..|hs| - 1], a) + AlertsOf(h, a)
  }

  /** How many of the threads polled the minute. */
  function Polling(hs: seq<Hilo>, minute: int): nat {
    if hs == [] then 0
    else
      var h := hs[|hs| - 1];
      Polling(hs[..|hs| - 1], minute) + if Polls(h, minute) then 1 else 0
  }

  /** In its minute the cache holds so many copies of the event, whenever it is read. */
  ghost predicate HoldsDuring(cache: Cache, minute: int, e: Evento, copies: nat) {
    forall t :: MinuteOf(t) == minute ==> CopiesIn(cache(t), e) == copies
  }

  lemma {:induction false} ThreadAnnounces(h: Hilo, cache: Cache, a: Alert, minute: int, copies: nat)
    requires Reads(h, cache) && Due(a.evento, minute, a.kind) && HoldsDuring(cache, minute, a.evento, copies)
    ensures AlertsOf(h, a) == if Polls(h, minute) then copies else 0
  {
    var minutes := PollMinutes(h.first, h.rounds);
    if minute in minutes {
      var i :| 0 <= i < |minutes| && minutes[i] == minute;
      AnnouncedOnce(h.first, h.rounds, |h.rounds|, a, i);
      assert Listed(h.rounds[i], a.evento) == CopiesIn(cache(PollTime(h.first, h.rounds, i)), a.evento);
    } else {
      AnnouncedOnce(h.first, h.rounds, |h.rounds|, a, |h.rounds|);
    }
  }

  lemma {:induction false} OneMoreTimes(copies: nat, threads: nat, total: nat, more: bool)
    requires total == copies * threads
    ensures total + (if more then copies else 0) == copies * (threads + if more then 1 else 0)
  {
  }

  /**
   Threads left over from earlier windows keep reading the cache: altogether an alert is raised once per
   listed copy by every thread that polls its minute.
   */
  lemma {:induction false} EveryThreadAnnounces(hs: seq<Hilo>, cache: Cache, a: Alert, minute: int, copies: nat)
    requires AllRead(hs, cache)
    requires Due(a.evento, minute, a.kind) && HoldsDuring(cache, minute, a.evento, copies)
    ensures TotalAlerts(hs, a) == copies * Polling(hs, minute)
  {
    if hs != [] {
      EveryThreadAnnounces(hs[..|hs| - 1], cache, a, minute, copies);
      ThreadAnnounces(hs[|hs| - 1], cache, a, minute, copies);
      AddThread(hs, a, minute, copies);
    }
  }

  lemma {:induction false} AddThread(hs: seq<Hilo>, a: Alert, minute: int, copies: nat)
    requires hs != [] && AlertsOf(hs[|hs| - 1], a) == if Polls(hs[|hs| - 1], minute) then copies else 0
    requires TotalAlerts(hs[..|hs| - 1], a) == copies * Polling(hs[..|hs| - 1], minute)
    ensures TotalAlerts(hs, a) == copies * Polling(hs, minute)
  {
    var before, h := hs[..|hs| - 1], hs[|hs| - 1];
    OneMoreTimes(copies, Polling(before, minute), TotalAlerts(before, a), Polls(h, minute));
  }

  /** A second login within the session of the program: one event, listed once, is announced twice. */
  lemma {:induction false} SecondWindowAnnouncesTwice(e: Evento)
    requires e.segundos == 0
    ensures var h := Hilo(0, [Round(Some([e]), 0, false)]);
            TotalAlerts([h, h], Alert(e, Now)) == 2
  {
    var h := Hilo(0, [Round(Some([e]), 0, false)]);
    var minutes := PollMinutes(h.first, h.rounds);
    assert minutes[0] == 0;
    AnnouncedOnce(h.first, h.rounds, 1, Alert(e, Now), 0);
    CountOne(e, e);
    assert [h, h][..1] == [h] && [h][..0] == [];
    assert TotalAlerts([h], Alert(e, Now)) == 1;
  }

  // ---------------------------------------------------------------- the minutes nobody polled

  /** The minutes from `a` to `b`. */
  function Span(a: int, b: int): (minutes: set<int>)
    ensures forall m :: m in minutes <==> a <= m <= b
    ensures a <= b ==> |minutes| == b - a + 1
    decreases b - a + 1
  {
    if a > b then {} else Span(a, b - 1) + {b}
  }

  /** The minutes polled by the rounds 0 to `k`. */
  function Polled(minutes: seq<int>, k: nat): set<int>
    requires k < |minutes|
  {
    set i | 0 <= i <= k :: minutes[i]
  }

  /** The minutes that passed from the first poll to the `k`-th without being polled. */
  function Skipped(minutes: seq<int>, k: nat): set<int>
    requires k < |minutes|
  {
    Span(minutes[0], minutes[k]) - Polled(minutes, k)
  }

  lemma {:induction false} PolledCount(minutes: seq<int>, k: nat)
    requires k < |minutes| && Increasing(minutes)
    ensures |Polled(minutes, k)| == k + 1
  {
    if k == 0 {
      assert Polled(minutes, 0) == {minutes[0]};
    } else {
      PolledCount(minutes, k - 1);
      assert minutes[k] !in Polled(minutes, k - 1);
      assert Polled(minutes, k) == Polled(minutes, k - 1) + {minutes[k]};
    }
  }

  lemma {:induction false} SkippedCount(minutes: seq<int>, k: nat)
    requires k < |minutes| && Increasing(minutes)
    ensures |Skipped(minutes, k)| == minutes[k] - minutes[0] - k
  {
    PolledCount(minutes, k);
    assert Polled(minutes, k) <= Span(minutes[0], minutes[k]);
    assert Span(minutes[0], minutes[k]) == Polled(minutes, k) + Skipped(minutes, k);
  }

  /**
   The minutes skipped during the first k + 1 rounds are as many as the whole minutes of drift; every minute
   was polled if and only if the offset of the first poll and all work together stay below one minute.
   */
  lemma {:induction false} SkippedMinutes(first: int, rounds: seq<Round>, k: nat)
    requires k < |rounds|
    ensures var skipped := Skipped(PollMinutes(first, rounds), k);
            && |skipped| == (first % 60_000_000_000 + Work(rounds, k)) / 60_000_000_000
            && (skipped == {} <==> first % 60_000_000_000 + Work(rounds, k) < 60_000_000_000)
  {
    PollMinutesIncrease(first, rounds);
    SkippedCount(PollMinutes(first, rounds), k);
    Drift(first, rounds, k);
  }

  /** The event is on the list of every round up to the `k`-th. */
  ghost predicate ListedThroughout(rounds: seq<Round>, k: nat, e: Evento)
    requires k < |rounds|
  {
    forall i :: 0 <= i <= k ==> Listed(rounds[i], e) > 0
  }

  /**
   An event listed throughout whose reminder is for a minute between the first poll and the k-th goes
   unannounced if and only if that minute was skipped.
   */
  lemma {:induction false} MissedIff(first: int, rounds: seq<Round>, k: nat, a: Alert, minute: int)
    requires k < |rounds| && ListedThroughout(rounds, k, a.evento) && Due(a.evento, minute, a.kind)
    requires MinuteOf(first) <= minute <= MinuteOf(PollTime(first, rounds, k))
    ensures var minutes := PollMinutes(first, rounds);
            Count(Alerts(minutes, rounds, k + 1), a) == 0 <==> minute in Skipped(minutes, k)
  {
    PollMinutesIncrease(first, rounds);
    MissedAmong(PollMinutes(first, rounds), rounds, k, a, minute);
  }

  lemma {:induction false} MissedAmong(minutes: seq<int>, rounds: seq<Round>, k: nat, a: Alert, minute: int)
    requires k < |rounds| == |minutes| && Increasing(minutes)
    requires ListedThroughout(rounds, k, a.evento) && Due(a.evento, minute, a.kind)
    requires minutes[0] <= minute <= minutes[k]
    ensures Count(Alerts(minutes, rounds, k + 1), a) == 0 <==> minute in Skipped(minutes, k)
  {
    if minute in Polled(minutes, k) {
      var i :| 0 <= i <= k && minutes[i] == minute;
      AnnouncedInItsRound(minutes, rounds, k + 1, a, i);
    } else {
      DueOnlyThere(minutes, k, a, minute);
      AnnouncedInItsRound(minutes, rounds, k + 1, a, k + 1);
    }
  }

  /** A reminder is for one minute; if that was not polled, no round up to the `k`-th raises it. */
  lemma {:induction false} DueOnlyThere(minutes: seq<int>, k: nat, a: Alert, minute: int)
    requires k < |minutes| && Due(a.evento, minute, a.kind) && minute !in Polled(minutes, k)
    ensures IsRoundOf(minutes, k + 1, a, k + 1)
  {
    forall j | 0 <= j < k + 1 ensures !Due(a.evento, minutes[j], a.kind) {
      assert minutes[j] in Polled(minutes, k);
    }
  }

  /** One round that takes a whole minute skips the next one: an event listed throughout stays unannounced. */
  lemma {:induction false} DriftLosesAnEvent(e: Evento)
    requires e.segundos == 60
    ensures var rounds := [Round(Some([e]), 60_000_000_000, false), Round(Some([e]), 0, false)];
            Count(Alerts(PollMinutes(0, rounds), rounds, 2), Alert(e, Now)) == 0
  {
    var rounds := [Round(Some([e]), 60_000_000_000, false), Round(Some([e]), 0, false)];
    assert PollTime(0, rounds, 1) == 120_000_000_000;
    AnnouncedOnce(0, rounds, 2, Alert(e, Now), 2);
  }
}
