/**
 The Windows mutex of `thr_mutex.h`: a non-recursive try-lock made out of a recursive critical section
 by entering it, looking at its recursion count and leaving again when the count shows a second entry.
 Entering, looking and leaving are separate steps of an interleaving of any number of threads.
 */
module CriticalSection {
  import opened Common

  type Thread = nat

  /**
   Where a thread is inside `native_mutex_trylock`. `wasFree` is a history variable: whether no thread
   owned the mutex at the instant of the TryEnterCriticalSection step.
   */
  datatype Pc = Outside | CheckCount(wasFree: bool) | LeaveAgain(wasFree: bool)

  /** One finished try-lock call: who made it, what it answered, and what it should have answered. */
  datatype Answer = Answer(t: Thread, ok: bool, wasFree: bool)

  datatype State = State(owner: Option<Thread>, recursionCount: nat, pc: map<Thread, Pc>, answers: seq<Answer>)

  datatype Action = Lock | TryLock | Unlock | Continue

  const INIT := State(None, 0, map[], [])

  function At(s: State, t: Thread): Pc {
    if t in s.pc then s.pc[t] else Outside
  }

  predicate CanEnter(s: State, t: Thread) {
    s.owner == None || s.owner == Some(t)
  }

  /** EnterCriticalSection, or a TryEnterCriticalSection that succeeds. */
  function Enter(s: State, t: Thread): State
    requires CanEnter(s, t)
  {
    s.(owner := Some(t), recursionCount := s.recursionCount + 1)
  }

  /** LeaveCriticalSection. */
  function Leave(s: State): State
    requires s.recursionCount > 0
  {
    s.(owner := if s.recursionCount == 1 then None else s.owner, recursionCount := s.recursionCount - 1)
  }

  function Reply(s: State, t: Thread, ok: bool, wasFree: bool): State {
    s.(pc := s.pc[t := Outside], answers := s.answers + [Answer(t, ok, wasFree)])
  }

  predicate Enabled(s: State, t: Thread, a: Action) {
    match a
    case Lock => At(s, t) == Outside && CanEnter(s, t)
    case TryLock => At(s, t) == Outside
    case Unlock => At(s, t) == Outside && s.owner == Some(t) && s.recursionCount > 0
    case Continue => At(s, t) != Outside && (At(s, t).LeaveAgain? ==> s.recursionCount > 0)
  }

  function Step(s: State, t: Thread, a: Action): State
    requires Enabled(s, t, a)
  {
    match a
    case Lock => Enter(s, t)
    case TryLock =>
      if CanEnter(s, t) then Enter(s, t).(pc := s.pc[t := CheckCount(s.owner == None)])
      else Reply(s, t, false, s.owner == None)
    case Unlock => Leave(s)
    case Continue =>
      match At(s, t)
      case CheckCount(wasFree) =>
        if s.recursionCount > 1 then s.(pc := s.pc[t := LeaveAgain(wasFree)])
        else Reply(s, t, true, wasFree)
      case LeaveAgain(wasFree) => Reply(Leave(s), t, false, wasFree)
      case Outside => s
  }

  type Schedule = seq<(Thread, Action)>

  function Advance(s: State, x: (Thread, Action)): State {
    if Enabled(s, x.0, x.1) then Step(s, x.0, x.1) else s
  }

  function Exec(s: State, sched: Schedule): State {
    if sched == [] then s else Advance(Exec(s, sched[..|sched| - 1]), sched[|sched| - 1])
  }

  // ---------------------------------------------------------------- the inductive invariant

  ghost predicate Inv(s: State) {
    && (s.owner == None <==> s.recursionCount == 0)
    && (forall t: Thread :: At(s, t) != Outside ==> s.owner == Some(t))
    && (forall t: Thread :: At(s, t).CheckCount? ==> (At(s, t).wasFree <==> s.recursionCount == 1))
    && (forall t: Thread :: At(s, t).LeaveAgain? ==> !At(s, t).wasFree && s.recursionCount > 1)
    && (forall i :: 0 <= i < |s.answers| ==> s.answers[i].ok == s.answers[i].wasFree)
  }

  lemma {:induction false} StepKeepsInv(s: State, t: Thread, a: Action)
    requires Inv(s) && Enabled(s, t, a)
    ensures Inv(Step(s, t, a))
  {
    var s' := Step(s, t, a);
    assert forall u: Thread :: u != t ==> At(s', u) == At(s, u);
  }

  lemma {:induction false} InvariantHolds(sched: Schedule)
    ensures Inv(Exec(INIT, sched))
  {
    if sched != [] {
      var k := |sched| - 1;
      InvariantHolds(sched[..k]);
      if Enabled(Exec(INIT, sched[..k]), sched[k].0, sched[k].1) {
        StepKeepsInv(Exec(INIT, sched[..k]), sched[k].0, sched[k].1);
      }
    }
  }

  /** In every interleaving, nested locking included, a try-lock answers 0 exactly when the mutex was free. */
  lemma {:induction false} TryLockTellsTheTruth(sched: Schedule, i: nat)
    requires i < |Exec(INIT, sched).answers|
    ensures var r := Exec(INIT, sched).answers[i]; r.ok <==> r.wasFree
  {
    InvariantHolds(sched);
  }

  /** The recursion count is looked at, and left again, only by the thread that owns the section. */
  lemma {:induction false} CountReadByOwnerOnly(sched: Schedule, t: Thread, u: Thread)
    requires At(Exec(INIT, sched), t) != Outside
    ensures Exec(INIT, sched).owner == Some(t)
    ensures Enabled(Exec(INIT, sched), t, Continue)
    ensures u != t ==> At(Exec(INIT, sched), u) == Outside && !Enabled(Exec(INIT, sched), u, Unlock)
  {
    InvariantHolds(sched);
  }

  // ---------------------------------------------------------------- nesting

  /** Some thread locks, by the blocking call, a mutex it already owns. */
  ghost predicate Relocks(sched: Schedule) {
    exists k :: 0 <= k < |sched| && RelocksAt(sched, k)
  }

  predicate RelocksAt(sched: Schedule, k: nat)
    requires k < |sched|
  {
    var s := Exec(INIT, sched[..k]);
    sched[k].1 == Lock && Enabled(s, sched[k].0, Lock) && s.owner == Some(sched[k].0)
  }

  /** The entries that are not those of a try-lock about to be taken back. */
  function Depth(s: State): int {
    s.recursionCount
    - if s.owner.Some? && At(s, s.owner.value) != Outside && !At(s, s.owner.value).wasFree then 1 else 0
  }

  lemma {:induction false} StepDepth(s: State, t: Thread, a: Action)
    requires Inv(s) && Enabled(s, t, a) && Depth(s) <= 1
    requires !(a == Lock && s.owner == Some(t))
    ensures Depth(Step(s, t, a)) <= 1
  {
    var s' := Step(s, t, a);
    assert forall u: Thread :: u != t ==> At(s', u) == At(s, u);
  }

  /** Without relocking, the recursion count exceeds 1 only while a refused try-lock is under way. */
  lemma {:induction false} NoRelockNoNesting(sched: Schedule)
    requires !Relocks(sched)
    ensures Depth(Exec(INIT, sched)) <= 1
    ensures var s := Exec(INIT, sched); s.recursionCount > 1 ==> s.owner.Some? && At(s, s.owner.value) != Outside
  {
    InvariantHolds(sched);
    if sched != [] {
      var k := |sched| - 1;
      forall i | 0 <= i < k ensures !RelocksAt(sched[..k], i) {
        assert sched[..k][..i] == sched[..i];
        assert !RelocksAt(sched, i);
      }
      NoRelockNoNesting(sched[..k]);
      InvariantHolds(sched[..k]);
      assert !RelocksAt(sched, k);
      if Enabled(Exec(INIT, sched[..k]), sched[k].0, sched[k].1) {
        StepDepth(Exec(INIT, sched[..k]), sched[k].0, sched[k].1);
      }
    }
  }

  /** Relocking is what breaks it: right after such a step the owner is outside with a count above 1. */
  lemma {:induction false} RelockNests(sched: Schedule, k: nat)
    requires k < |sched| && RelocksAt(sched, k)
    ensures var s := Exec(INIT, sched[..k + 1]);
            s.recursionCount > 1 && s.owner.Some? && At(s, s.owner.value) == Outside
  {
    InvariantHolds(sched[..k]);
    assert sched[..k + 1][..k] == sched[..k];
  }

  /** It can happen: the primitive lets its owner in again. */
  lemma {:induction false} RelockHappens(t: Thread)
    ensures Relocks([(t, Lock), (t, Lock)])
    ensures Exec(INIT, [(t, Lock), (t, Lock)]) == State(Some(t), 2, map[], [])
  {
    ExecStep(INIT, [], t, Lock);
    ExecStep(INIT, [(t, Lock)], t, Lock);
    var sched := [(t, Lock), (t, Lock)];
    assert [(t, Lock)] + [(t, Lock)] == sched && sched[..1] == [(t, Lock)];
    assert RelocksAt(sched, 1);
  }

  // ---------------------------------------------------------------- refinement of a plain mutex

  /** A non-recursive mutex: the steps it knows, each atomic, and who holds it afterwards. */
  datatype Label = Quiet | Acquire(t: Thread) | TryAcquire(t: Thread) | Release(t: Thread)

  function LabelOf(t: Thread, a: Action): Label {
    match a
    case Lock => Acquire(t)
    case TryLock => TryAcquire(t)
    case Unlock => Release(t)
    case Continue => Quiet
  }

  /** `None` as the result: the plain mutex does not allow the step. */
  function Plain(holder: Option<Thread>, e: Label): Option<Option<Thread>> {
    match e
    case Quiet => Some(holder)
    case Acquire(t) => if holder == None then Some(Some(t)) else None
    case TryAcquire(t) => Some(if holder == None then Some(t) else holder)
    case Release(t) => if holder == Some(t) then Some(None) else None
  }

  /** Step by step, a run without relocking is a run of the plain mutex, the owner being its holder. */
  lemma {:induction false} RefinesPlainMutex(sched: Schedule, t: Thread, a: Action)
    requires !Relocks(sched + [(t, a)])
    requires Enabled(Exec(INIT, sched), t, a)
    ensures var s := Exec(INIT, sched); Plain(s.owner, LabelOf(t, a)) == Some(Step(s, t, a).owner)
  {
    var whole := sched + [(t, a)];
    assert whole[..|sched|] == sched && whole[|sched|] == (t, a);
    assert !RelocksAt(whole, |sched|);
    forall i | 0 <= i < |sched| ensures !RelocksAt(sched, i) {
      assert whole[..i] == sched[..i];
      assert !RelocksAt(whole, i);
    }
    NoRelockNoNesting(sched);
    InvariantHolds(sched);
  }

  // ---------------------------------------------------------------- the calls themselves

  lemma {:induction false} ExecStep(s: State, sched: Schedule, t: Thread, a: Action)
    ensures Exec(s, sched + [(t, a)]) == Advance(Exec(s, sched), (t, a))
    ensures sched == [] ==> Exec(s, [(t, a)]) == Advance(s, (t, a))
  {
    var whole := sched + [(t, a)];
    assert whole[..|whole| - 1] == sched;
    if sched == [] {
      assert whole == [(t, a)];
    }
  }

  /** The steps of a try-lock call: refused at once, taken, or entered and left again. */
  function TryLockSteps(owner: Option<Thread>, t: Thread): Schedule {
    if owner == None then [(t, TryLock), (t, Continue)]
    else if owner == Some(t) then [(t, TryLock), (t, Continue), (t, Continue)]
    else [(t, TryLock)]
  }

  /** What a try-lock call does when no other thread runs in between. */
  lemma {:induction false} TryLockAlone(s: State, t: Thread)
    requires Inv(s) && At(s, t) == Outside
    ensures var free := s.owner == None;
            Exec(s, TryLockSteps(s.owner, t))
            == State(if free then Some(t) else s.owner, if free then 1 else s.recursionCount,
                     s.pc[t := Outside], s.answers + [Answer(t, free, free)])
  {
    ExecStep(s, [], t, TryLock);
    ExecStep(s, [(t, TryLock)], t, Continue);
    assert [(t, TryLock)] + [(t, Continue)] == [(t, TryLock), (t, Continue)];
    if CanEnter(s, t) {
      var entered := Step(s, t, TryLock);
      var looked := Step(entered, t, Continue);
      if s.owner == None {
        assert looked.pc == s.pc[t := Outside];
      } else {
        ExecStep(s, [(t, TryLock), (t, Continue)], t, Continue);
        assert [(t, TryLock), (t, Continue)] + [(t, Continue)] == [(t, TryLock), (t, Continue), (t, Continue)];
        assert Step(looked, t, Continue).pc == s.pc[t := Outside];
      }
    }
  }

  /**
   `native_mutex_t`: a CRITICAL_SECTION, entered and left by whole calls, with the position of every
   thread and the answers given beside it.
   */
  class NativeMutex {
    var owningThread: Option<Thread>
    var recursionCount: nat
    ghost var pc: map<Thread, Pc>
    ghost var answers: seq<Answer>

    ghost function View(): State
      reads this
    {
      State(owningThread, recursionCount, pc, answers)
    }

    constructor Init()
      ensures View() == INIT
    {
      owningThread, recursionCount, pc, answers := None, 0, map[], [];
    }

    method EnterCriticalSection(t: Thread)
      requires CanEnter(View(), t)
      modifies this`owningThread, this`recursionCount
      ensures View() == Enter(old(View()), t)
      ensures owningThread == Some(t) && recursionCount == old(recursionCount) + 1
    {
      owningThread, recursionCount := Some(t), recursionCount + 1;
    }

    method LeaveCriticalSection()
      requires recursionCount > 0
      modifies this`owningThread, this`recursionCount
      ensures View() == Leave(old(View()))
      ensures recursionCount == old(recursionCount) - 1
      ensures owningThread == if recursionCount == 0 then None else old(owningThread)
    {
      recursionCount := recursionCount - 1;
      if recursionCount == 0 {
        owningThread := None;
      }
    }

    /**
     `native_mutex_trylock` run alone, from any state an interleaving can reach: it takes a free mutex, leaves
     any other exactly as it was, and is its steps of the interleaved system.
     */
    method TryLock(t: Thread) returns (ok: bool)
      requires Inv(View()) && At(View(), t) == Outside
      modifies this
      ensures Inv(View())
      ensures ok <==> old(owningThread) == None
      ensures ok ==> owningThread == Some(t) && recursionCount == 1
      ensures !ok ==> owningThread == old(owningThread) && recursionCount == old(recursionCount)
      ensures View() == Exec(old(View()), TryLockSteps(old(owningThread), t))
    {
      ghost var s0 := View();
      TryLockAlone(s0, t);
      ok := false;
      if owningThread == None || owningThread == Some(t) {
        EnterCriticalSection(t);
        if recursionCount > 1 {
          LeaveCriticalSection();
        } else {
          ok := true;
        }
      }
      pc := pc[t := Outside];
      answers := answers + [Answer(t, ok, s0.owner == None)];
      assert forall u: Thread :: u != t ==> At(View(), u) == At(s0, u);
    }
  }
}
