/**
 The Windows read-write lock of `thr_rwlock.h`: an SRWLOCK with one unprotected flag on top of it, so
 that a single unlock call can choose between the two SRWLOCK release calls.

 Every access to the SRWLOCK and every access to the flag is a step of its own, and any number of
 threads interleave their steps. A schedule lists (thread, action) pairs; a pair that is not enabled
 when its turn comes is skipped, so the schedules are exactly the interleavings.
 */
module RwLock {
  import opened Common

  type Thread = nat

  // ---------------------------------------------------------------- the SRWLOCK primitive

  /** `Broken`: a release call did not match the way its caller holds the lock. */
  datatype Srw = Srw(exclusive: Option<Thread>, shared: multiset<Thread>) | Broken

  predicate CanShare(l: Srw) {
    l.Srw? && l.exclusive.None?
  }

  predicate CanOwn(l: Srw) {
    CanShare(l) && l.shared == multiset{}
  }

  function AcquireShared(l: Srw, t: Thread): Srw
    requires CanShare(l)
  {
    l.(shared := l.shared + multiset{t})
  }

  function AcquireExclusive(l: Srw, t: Thread): Srw
    requires CanOwn(l)
  {
    l.(exclusive := Some(t))
  }

  function ReleaseShared(l: Srw, t: Thread): Srw {
    if l.Srw? && t in l.shared then l.(shared := l.shared - multiset{t}) else Broken
  }

  function ReleaseExclusive(l: Srw, t: Thread): Srw {
    if l.Srw? && l.exclusive == Some(t) then l.(exclusive := None) else Broken
  }

  predicate Holds(l: Srw, t: Thread) {
    l.Srw? && (l.exclusive == Some(t) || t in l.shared)
  }

  // ---------------------------------------------------------------- the step system

  /** Where a thread is; every constructor but `Idle` names the step it performs next. */
  datatype Pc = Idle | SetFlag | ReadFlag | ClearFlag | FreeExclusive | FreeShared

  datatype State = State(srw: Srw, flag: bool, pc: map<Thread, Pc>)

  /** A failed try-lock may be spurious. `Continue` performs the next step of a call under way. */
  datatype Action = RdLock | TryRdLock(granted: bool) | WrLock | TryWrLock(granted: bool) | Unlock | Continue

  function At(s: State, t: Thread): Pc {
    if t in s.pc then s.pc[t] else Idle
  }

  const INIT := State(Srw(None, multiset{}), false, map[])

  /** Acquire calls block until they can be granted; callers unlock only what they hold. */
  predicate Enabled(s: State, t: Thread, a: Action) {
    match a
    case RdLock => At(s, t) == Idle && CanShare(s.srw)
    case TryRdLock(granted) => At(s, t) == Idle && (granted ==> CanShare(s.srw))
    case WrLock => At(s, t) == Idle && CanOwn(s.srw)
    case TryWrLock(granted) => At(s, t) == Idle && (granted ==> CanOwn(s.srw))
    case Unlock => At(s, t) == Idle && Holds(s.srw, t)
    case Continue => At(s, t) != Idle
  }

  function Step(s: State, t: Thread, a: Action): State
    requires Enabled(s, t, a)
  {
    match a
    case RdLock => s.(srw := AcquireShared(s.srw, t))
    case TryRdLock(granted) => if granted then s.(srw := AcquireShared(s.srw, t)) else s
    case WrLock => s.(srw := AcquireExclusive(s.srw, t), pc := s.pc[t := SetFlag])
    case TryWrLock(granted) =>
      if granted then s.(srw := AcquireExclusive(s.srw, t), pc := s.pc[t := SetFlag]) else s
    case Unlock => s.(pc := s.pc[t := ReadFlag])
    case Continue =>
      match At(s, t)
      case SetFlag => s.(flag := true, pc := s.pc[t := Idle])
      case ReadFlag => s.(pc := s.pc[t := if s.flag then ClearFlag else FreeShared])
      case ClearFlag => s.(flag := false, pc := s.pc[t := FreeExclusive])
      case FreeExclusive => s.(srw := ReleaseExclusive(s.srw, t), pc := s.pc[t := Idle])
      case FreeShared => s.(srw := ReleaseShared(s.srw, t), pc := s.pc[t := Idle])
      case Idle => s
  }

  type Schedule = seq<(Thread, Action)>

  function Advance(s: State, x: (Thread, Action)): State {
    if Enabled(s, x.0, x.1) then Step(s, x.0, x.1) else s
  }

  function Exec(s: State, sched: Schedule): State {
    if sched == [] then s
    else Advance(Exec(s, sched[..|sched| - 1]), sched[|sched| - 1])
  }

  // ---------------------------------------------------------------- the inductive invariant

  ghost predicate Inv(s: State) {
    && s.srw.Srw?
    && (s.srw.exclusive.Some? ==> s.srw.shared == multiset{})
    && (forall t: Thread :: At(s, t) in {SetFlag, ClearFlag, FreeExclusive} ==> s.srw.exclusive == Some(t))
    && (forall t: Thread :: At(s, t) == ReadFlag ==> Holds(s.srw, t))
    && (forall t: Thread :: At(s, t) == FreeShared ==> t in s.srw.shared)
    && (s.flag <==> s.srw.exclusive.Some? && At(s, s.srw.exclusive.value) !in {SetFlag, FreeExclusive})
  }

  lemma {:induction false} StepKeepsInv(s: State, t: Thread, a: Action)
    requires Inv(s) && Enabled(s, t, a)
    ensures Inv(Step(s, t, a))
  {
    var s' := Step(s, t, a);
    assert forall u: Thread :: u != t ==> At(s', u) == At(s, u);
    if a == Continue {
      ContinueKeepsInv(s, t);
    }
  }

  lemma {:induction false} ContinueKeepsInv(s: State, t: Thread)
    requires Inv(s) && Enabled(s, t, Continue)
    ensures Inv(Step(s, t, Continue))
  {
    var s' := Step(s, t, Continue);
    assert forall u: Thread :: u != t ==> At(s', u) == At(s, u);
  }

  /** In every interleaving a set flag means one exclusive holder that has set it and not yet cleared it. */
  lemma {:induction false} InvariantHolds(sched: Schedule)
    ensures Inv(Exec(INIT, sched))
  {
    if sched != [] {
      var k := |sched| - 1;
      InvariantHolds(sched[..k]);
      var s := Exec(INIT, sched[..k]);
      var (t, a) := sched[k];
      if Enabled(s, t, a) {
        StepKeepsInv(s, t, a);
      }
    }
  }

  /** No thread that holds the lock shared ever sees the flag set, and none that owns it sees it clear. */
  lemma {:induction false} UnlockSeesItsMode(sched: Schedule, t: Thread)
    requires At(Exec(INIT, sched), t) in {Idle, ReadFlag} && Holds(Exec(INIT, sched).srw, t)
    ensures var s := Exec(INIT, sched); s.flag <==> s.srw.exclusive == Some(t)
    ensures var s := Exec(INIT, sched); !s.flag <==> t in s.srw.shared
  {
    InvariantHolds(sched);
  }

  // ---------------------------------------------------------------- no data race on the flag

  datatype Access = NoAccess | Reads | Writes

  /** How the next step of `t` touches the flag. */
  function NextAccess(s: State, t: Thread): Access {
    match At(s, t)
    case SetFlag => Writes
    case ReadFlag => Reads
    case ClearFlag => Writes
    case _ => NoAccess
  }

  lemma {:induction false} NoDataRace(sched: Schedule, t: Thread, u: Thread)
    requires t != u
    ensures var s := Exec(INIT, sched); NextAccess(s, t) == Writes ==> NextAccess(s, u) == NoAccess
    ensures var s := Exec(INIT, sched); NextAccess(s, t) == Writes ==> s.srw == Srw(Some(t), multiset{})
    ensures var s := Exec(INIT, sched); NextAccess(s, t) == Reads ==> Holds(s.srw, t)
  {
    InvariantHolds(sched);
  }

  /** Only the owner's own steps change the flag; a failed try-lock changes nothing at all. */
  lemma {:induction false} FlagWrittenOnlyByOwner(sched: Schedule, t: Thread, a: Action)
    requires Enabled(Exec(INIT, sched), t, a)
    ensures var s := Exec(INIT, sched);
            Step(s, t, a).flag != s.flag ==> s.srw.Srw? && s.srw.exclusive == Some(t) && a == Continue
    ensures a in {TryRdLock(false), TryWrLock(false)} ==> Step(Exec(INIT, sched), t, a) == Exec(INIT, sched)
  {
    InvariantHolds(sched);
  }

  /** That is what the steps really do: a step that does not write keeps the flag, one that does not read ignores it. */
  lemma {:induction false} AccessIsReal(s: State, t: Thread, a: Action, b: bool)
    requires Enabled(s, t, a)
    ensures Step(s, t, a).flag != s.flag ==> NextAccess(s, t) == Writes && a == Continue
    ensures (NextAccess(s, t) != Reads || a != Continue) && Enabled(s.(flag := b), t, a) ==>
              && Step(s.(flag := b), t, a).srw == Step(s, t, a).srw
              && Step(s.(flag := b), t, a).pc == Step(s, t, a).pc
  {
  }

  /**
   Who has to wait, in every reachable state: readers for an exclusive owner only, writers for anybody who
   holds the lock in any mode, and a caller may unlock if and only if it holds the lock.
   */
  lemma {:induction false} WaitsOnlyForHolders(sched: Schedule, t: Thread)
    requires At(Exec(INIT, sched), t) == Idle
    ensures var s := Exec(INIT, sched);
            && (Enabled(s, t, RdLock) <==> s.srw.Srw? && s.srw.exclusive == None)
            && (Enabled(s, t, WrLock) <==> forall u: Thread :: HoldCount(s.srw, u) == 0)
            && (Enabled(s, t, Unlock) <==> HoldCount(s.srw, t) > 0)
  {
    InvariantHolds(sched);
    var l := Exec(INIT, sched).srw;
    if CanShare(l) && l.shared != multiset{} {
      var u :| u in l.shared;
      assert HoldCount(l, u) > 0;
    }
    if l.exclusive.Some? {
      assert HoldCount(l, l.exclusive.value) > 0;
    }
  }

  // ---------------------------------------------------------------- refinement of an ideal lock

  /** What a step does to a lock whose unlock call needs no flag: it gives back what the caller holds. */
  datatype Label = Quiet | TakeShared(t: Thread) | TakeExclusive(t: Thread) | GiveBack(t: Thread)

  function LabelOf(s: State, t: Thread, a: Action): Label
    requires Enabled(s, t, a)
  {
    match a
    case RdLock => TakeShared(t)
    case WrLock => TakeExclusive(t)
    case TryRdLock(granted) => if granted then TakeShared(t) else Quiet
    case TryWrLock(granted) => if granted then TakeExclusive(t) else Quiet
    case Unlock => Quiet
    case Continue => if At(s, t) in {FreeExclusive, FreeShared} then GiveBack(t) else Quiet
  }

  /** The ideal lock: unlocking returns the caller's hold in the very mode the caller has it. */
  function Ideal(l: Srw, e: Label): Srw {
    match e
    case Quiet => l
    case TakeShared(t) => if CanShare(l) then AcquireShared(l, t) else Broken
    case TakeExclusive(t) => if CanOwn(l) then AcquireExclusive(l, t) else Broken
    case GiveBack(t) =>
      if !Holds(l, t) then Broken
      else if l.exclusive == Some(t) then ReleaseExclusive(l, t)
      else ReleaseShared(l, t)
  }

  function Labels(s: State, sched: Schedule): seq<Label> {
    if sched == [] then []
    else
      var k := |sched| - 1;
      var before := Exec(s, sched[..k]);
      var (t, a) := sched[k];
      var labels := Labels(s, sched[..k]);
      if Enabled(before, t, a) then labels + [LabelOf(before, t, a)] else labels
  }

  function IdealRun(l: Srw, labels: seq<Label>): Srw {
    if labels == [] then l else Ideal(IdealRun(l, labels[..|labels| - 1]), labels[|labels| - 1])
  }

  lemma {:induction false} StepRefines(s: State, t: Thread, a: Action)
    requires Inv(s) && Enabled(s, t, a)
    ensures Step(s, t, a).srw == Ideal(s.srw, LabelOf(s, t, a))
  {
  }

  lemma {:induction false} IdealSnoc(l: Srw, labels: seq<Label>, e: Label)
    ensures IdealRun(l, labels + [e]) == Ideal(IdealRun(l, labels), e)
  {
    assert (labels + [e])[..|labels|] == labels;
  }

  /** Every interleaving is a run of the ideal lock, so no release call is ever made in the wrong mode. */
  lemma {:induction false} RefinesIdealLock(sched: Schedule)
    ensures Exec(INIT, sched).srw == IdealRun(INIT.srw, Labels(INIT, sched))
    ensures Exec(INIT, sched).srw != Broken
  {
    InvariantHolds(sched);
    if sched != [] {
      var k := |sched| - 1;
      RefinesIdealLock(sched[..k]);
      InvariantHolds(sched[..k]);
      var s := Exec(INIT, sched[..k]);
      var (t, a) := sched[k];
      if Enabled(s, t, a) {
        StepRefines(s, t, a);
        IdealSnoc(INIT.srw, Labels(INIT, sched[..k]), LabelOf(s, t, a));
      }
    }
  }

  // ---------------------------------------------------------------- conservation and progress

  function HoldCount(l: Srw, t: Thread): nat {
    if l.Broken? then 0 else l.shared[t] + if l.exclusive == Some(t) then 1 else 0
  }

  function Count(labels: seq<Label>, e: Label): nat {
    if labels == [] then 0
    else Count(labels[..|labels| - 1], e) + if labels[|labels| - 1] == e then 1 else 0
  }

  lemma {:induction false} CountSnoc(labels: seq<Label>, x: Label, e: Label)
    ensures Count(labels + [x], e) == Count(labels, e) + if x == e then 1 else 0
  {
    assert (labels + [x])[..|labels|] == labels;
  }

  lemma {:induction false} StepConserves(s: State, u: Thread, a: Action, t: Thread)
    requires Inv(s) && Enabled(s, u, a)
    ensures var e := LabelOf(s, u, a);
            HoldCount(Step(s, u, a).srw, t) + (if e == GiveBack(t) then 1 else 0)
            == HoldCount(s.srw, t) + if e in {TakeShared(t), TakeExclusive(t)} then 1 else 0
  {
  }

  /** Nothing leaks: what a thread holds is what it has acquired minus what it has given back. */
  lemma {:induction false} HoldsAreConserved(sched: Schedule, t: Thread)
    ensures var ls := Labels(INIT, sched);
            HoldCount(Exec(INIT, sched).srw, t) + Count(ls, GiveBack(t))
            == Count(ls, TakeShared(t)) + Count(ls, TakeExclusive(t))
  {
    if sched != [] {
      var k := |sched| - 1;
      HoldsAreConserved(sched[..k], t);
      InvariantHolds(sched[..k]);
      var s := Exec(INIT, sched[..k]);
      var (u, a) := sched[k];
      if Enabled(s, u, a) {
        var ls, e := Labels(INIT, sched[..k]), LabelOf(s, u, a);
        StepConserves(s, u, a, t);
        CountSnoc(ls, e, GiveBack(t));
        CountSnoc(ls, e, TakeShared(t));
        CountSnoc(ls, e, TakeExclusive(t));
      }
    }
  }

  /** Steps left in the call under way. */
  function StepsLeft(p: Pc): nat {
    match p
    case Idle => 0
    case SetFlag => 1
    case ReadFlag => 3
    case ClearFlag => 2
    case FreeExclusive => 1
    case FreeShared => 1
  }

  /** A call under way never blocks, needs at most three more steps of its thread, and never breaks the lock. */
  lemma {:induction false} CallsFinish(sched: Schedule, t: Thread)
    requires At(Exec(INIT, sched), t) != Idle
    ensures var s := Exec(INIT, sched);
            && Enabled(s, t, Continue)
            && StepsLeft(At(Step(s, t, Continue), t)) < StepsLeft(At(s, t)) <= 3
            && Step(s, t, Continue).srw.Srw?
  {
    InvariantHolds(sched);
    StepKeepsInv(Exec(INIT, sched), t, Continue);
  }

  /** When nobody holds the lock, the flag is clear again, ready for the next reader or writer. */
  lemma {:induction false} FreeLockHasClearFlag(sched: Schedule)
    requires CanShare(Exec(INIT, sched).srw)
    ensures !Exec(INIT, sched).flag
    ensures forall t: Thread :: NextAccess(Exec(INIT, sched), t) != Writes
  {
    InvariantHolds(sched);
  }

  // ---------------------------------------------------------------- the calls themselves

  /** `native_rw_lock_t`, with the position of every thread beside it. */
  class NativeRwLock {
    var srwlock: Srw
    var haveExclusiveSrwlock: bool
    ghost var pc: map<Thread, Pc>

    ghost function View(): State
      reads this
    {
      State(srwlock, haveExclusiveSrwlock, pc)
    }

    constructor Init()
      ensures View() == INIT
    {
      srwlock := Srw(None, multiset{});
      haveExclusiveSrwlock := false;
      pc := map[];
    }

    method RdLock(t: Thread)
      requires Enabled(View(), t, Action.RdLock)
      modifies this
      ensures View() == Exec(old(View()), [(t, Action.RdLock)])
      ensures HoldCount(srwlock, t) == old(HoldCount(srwlock, t)) + 1
    {
      srwlock := AcquireShared(srwlock, t);
      ExecStep(old(View()), [], t, Action.RdLock);
    }

    /** `busy` is the primitive's refusal: TryAcquireSRWLockShared answered FALSE. */
    method TryRdLock(t: Thread, busy: bool) returns (ok: bool)
      requires Enabled(View(), t, Action.TryRdLock(!busy))
      modifies this
      ensures ok == !busy
      ensures View() == Exec(old(View()), [(t, Action.TryRdLock(ok))])
      ensures HoldCount(srwlock, t) == old(HoldCount(srwlock, t)) + if ok then 1 else 0
    {
      ExecStep(old(View()), [], t, Action.TryRdLock(!busy));
      if busy {
        return false;
      }
      srwlock := AcquireShared(srwlock, t);
      return true;
    }

    method WrLock(t: Thread)
      requires Enabled(View(), t, Action.WrLock)
      modifies this
      ensures View() == Exec(old(View()), [(t, Action.WrLock), (t, Continue)])
      ensures srwlock == Srw(Some(t), multiset{}) && haveExclusiveSrwlock
    {
      srwlock := AcquireExclusive(srwlock, t);
      haveExclusiveSrwlock := true;
      ExecStep(old(View()), [], t, Action.WrLock);
      ExecStep(old(View()), [(t, Action.WrLock)], t, Continue);
      pc := pc[t := Idle];
    }

    method TryWrLock(t: Thread, busy: bool) returns (ok: bool)
      requires Enabled(View(), t, Action.TryWrLock(!busy))
      modifies this
      ensures ok == !busy
      ensures ok ==> srwlock == Srw(Some(t), multiset{}) && haveExclusiveSrwlock
      ensures View() == Exec(old(View()), [(t, Action.TryWrLock(ok))] + if ok then [(t, Continue)] else [])
    {
      ExecStep(old(View()), [], t, Action.TryWrLock(!busy));
      if busy {
        return false;
      }
      srwlock := AcquireExclusive(srwlock, t);
      haveExclusiveSrwlock := true;
      ExecStep(old(View()), [(t, Action.TryWrLock(true))], t, Continue);
      pc := pc[t := Idle];
      return true;
    }

    /** From any state an interleaving can reach, unlocking returns exactly one hold, in the mode it was taken. */
    method Unlock(t: Thread)
      requires Inv(View()) && Enabled(View(), t, Action.Unlock)
      modifies this
      ensures Inv(View())
      ensures srwlock == Ideal(old(srwlock), GiveBack(t)) && srwlock.Srw?
      ensures !haveExclusiveSrwlock
      ensures old(haveExclusiveSrwlock) ==>
                View() == Exec(old(View()), [(t, Action.Unlock), (t, Continue), (t, Continue), (t, Continue)])
      ensures !old(haveExclusiveSrwlock) ==>
                View() == Exec(old(View()), [(t, Action.Unlock), (t, Continue), (t, Continue)])
    {
      ghost var s0 := View();
      UnlockAlone(s0, t);
      if haveExclusiveSrwlock {
        haveExclusiveSrwlock := false;
        srwlock := ReleaseExclusive(srwlock, t);
      } else {
        srwlock := ReleaseShared(srwlock, t);
      }
      pc := pc[t := Idle];
      assert forall u: Thread :: u != t ==> At(View(), u) == At(s0, u);
    }
  }

  /** What an unlock call does when no other thread runs in between. */
  lemma {:induction false} UnlockAlone(s: State, t: Thread)
    requires Inv(s) && Enabled(s, t, Unlock)
    ensures s.flag ==> Exec(s, [(t, Unlock), (t, Continue), (t, Continue), (t, Continue)])
                       == State(ReleaseExclusive(s.srw, t), false, s.pc[t := Idle])
    ensures !s.flag ==> Exec(s, [(t, Unlock), (t, Continue), (t, Continue)])
                        == State(ReleaseShared(s.srw, t), false, s.pc[t := Idle])
  {
    var entered := Step(s, t, Unlock);
    var decided := Step(entered, t, Continue);
    ExecThree(s, (t, Unlock), (t, Continue), (t, Continue));
    if s.flag {
      ExecFour(s, (t, Unlock), (t, Continue), (t, Continue), (t, Continue));
      var cleared := Step(decided, t, Continue);
      assert Step(cleared, t, Continue).pc == s.pc[t := Idle];
    } else {
      assert Step(decided, t, Continue).pc == s.pc[t := Idle];
    }
  }

  lemma {:induction false} ExecThree(s: State, x: (Thread, Action), y: (Thread, Action), z: (Thread, Action))
    ensures Exec(s, [x, y, z]) == Advance(Advance(Advance(s, x), y), z)
  {
    ExecStep(s, [], x.0, x.1);
    ExecStep(s, [x], y.0, y.1);
    ExecStep(s, [x, y], z.0, z.1);
    assert [x] + [y] == [x, y] && [x, y] + [z] == [x, y, z];
  }

  lemma {:induction false} ExecFour(s: State, x: (Thread, Action), y: (Thread, Action), z: (Thread, Action),
                                    w: (Thread, Action))
    ensures Exec(s, [x, y, z, w]) == Advance(Advance(Advance(Advance(s, x), y), z), w)
  {
    ExecThree(s, x, y, z);
    ExecStep(s, [x, y, z], w.0, w.1);
    assert [x, y, z] + [w] == [x, y, z, w];
  }

  lemma {:induction false} ExecStep(s: State, sched: Schedule, t: Thread, a: Action)
    ensures Exec(s, sched + [(t, a)]) == Advance(Exec(s, sched), (t, a))
    ensures sched == [] ==> Exec(s, [(t, a)]) == Advance(s, (t, a))
  {
    var whole := sched + [(t, a)];
    assert whole[..|whole| - 1] == sched;
    if sched == [] {
      assert whole == [(t, a)];
    }
  }
}
