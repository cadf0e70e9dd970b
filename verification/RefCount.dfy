/** A saturating reference count: compare-and-swap loops run by any number of
    threads, against the same operations under one lock. */
module RefCount {
  import opened Bytes

  const MAX := 0xffff_ffff

  // ---------- Under a lock ----------

  datatype Kind = Inc | Dec

  /** What an operation reports: an increment nothing, a decrement whether the
      count is now zero; Abort when there was nothing to take away. */
  datatype Result = Done | Zero(isZero: bool) | Abort

  function Locked(count: nat, kind: Kind): (nat, Result) {
    match kind
    case Inc => (if count < MAX then count + 1 else count, Done)
    case Dec =>
      if count == 0 then (count, Abort)
      else
        var c := if count < MAX then count - 1 else count;
        (c, Zero(c == 0))
  }

  /** The count guarded by g_refcount_lock. */
  class LockedCount {
    var count: nat

    ghost predicate Valid()
      reads this
    {
      count <= MAX
    }

    constructor (initial: nat)
      requires initial <= MAX
      ensures Valid() && count == initial
    {
      count := initial;
    }

    method Increment()
      requires Valid()
      modifies this
      ensures Valid() && (count, Done) == Locked(old(count), Inc)
    {
      if count < MAX {
        count := count + 1;
      }
    }

    /** None stands for abort(). */
    method DecAndTestZero() returns (isZero: Option<bool>)
      requires Valid()
      modifies this
      ensures Valid() && (count, if isZero.Some? then Zero(isZero.value) else Abort) == Locked(old(count), Dec)
    {
      if count == 0 {
        return None;
      }
      if count < MAX {
        count := count - 1;
      }
      return Some(count == 0);
    }
  }

  // ---------- Lock-free ----------

  /** Where a thread is: outside, in a loop having last read expected, bound to
      abort, or about to return. since is the length of the log at that read. */
  datatype Thread =
    | Idle
    | Looping(kind: Kind, expected: nat, since: nat)
    | Doomed
    | Returning(result: Result)

  datatype Op = Op(thread: nat, kind: Kind, result: Result)

  /** log lists the operations at the moments they take effect, and returned what
      each call has returned to its thread. */
  datatype State = State(count: nat, threads: map<nat, Thread>, log: seq<Op>, returned: map<nat, seq<Result>>, aborted: bool)

  function Start(initial: nat): State {
    State(initial, map[], [], map[], false)
  }

  function At(s: State, t: nat): Thread {
    if t in s.threads then s.threads[t] else Idle
  }

  function ReturnedTo(s: State, t: nat): seq<Result> {
    if t in s.returned then s.returned[t] else []
  }

  /** A thread reads the count and looks at it.  At the top of the loop MAX ends
      both operations without a change and zero dooms a decrement. */
  function Read(s: State, t: nat, kind: Kind): State {
    if s.count == MAX then
      var r := if kind == Inc then Done else Zero(false);
      s.(threads := s.threads[t := Returning(r)], log := s.log + [Op(t, kind, r)])
    else if s.count == 0 && kind == Dec then
      s.(threads := s.threads[t := Doomed], log := s.log + [Op(t, kind, Abort)])
    else
      s.(threads := s.threads[t := Looping(kind, s.count, |s.log|)])
  }

  /** A weak compare-and-swap: it fails when the count is not as expected, and may
      fail when it is; failing, it reads the count. */
  function Swap(s: State, t: nat, kind: Kind, expected: nat, spurious: bool): State
    requires kind == Dec ==> expected > 0
  {
    if s.count == expected && !spurious then
      var c := if kind == Inc then expected + 1 else expected - 1;
      var r := if kind == Inc then Done else Zero(c == 0);
      s.(count := c, threads := s.threads[t := Returning(r)], log := s.log + [Op(t, kind, r)])
    else
      Read(s, t, kind)
  }

  datatype Event = Call(t: nat, kind: Kind) | Go(t: nat, spurious: bool)

  /** One step of one thread. */
  function Step(s: State, e: Event): State
    requires Sane(s)
  {
    if s.aborted then s
    else
      match e
      case Call(t, kind) => if At(s, t).Idle? then Read(s, t, kind) else s
      case Go(t, spurious) =>
        match At(s, t)
        case Idle => s
        case Looping(kind, expected, _) => Swap(s, t, kind, expected, spurious)
        case Doomed => s.(aborted := true)
        case Returning(r) =>
          s.(threads := s.threads[t := Idle], returned := s.returned[t := ReturnedTo(s, t) + [r]])
  }

  /** What every loop iteration has in hand. */
  predicate Sane(s: State) {
    && s.count <= MAX
    && forall t | t in s.threads && s.threads[t].Looping? ::
         && s.threads[t].expected < MAX
         && (s.threads[t].kind == Dec ==> s.threads[t].expected > 0)
         && s.threads[t].since <= |s.log|
  }

  lemma StepSane(s: State, e: Event)
    requires Sane(s)
    ensures Sane(Step(s, e))
  {}

  function Run(s: State, es: seq<Event>): (s': State)
    requires Sane(s)
    ensures Sane(s')
    decreases |es|
  {
    if es == [] then s
    else
      StepSane(s, es[0]);
      Run(Step(s, es[0]), es[1..])
  }

  // ---------- Atomicity ----------

  /** The count after the locked operations of the log, one after the other. */
  function CountAfter(initial: nat, log: seq<Op>): nat {
    if log == [] then initial else Locked(CountAfter(initial, log[..|log| - 1]), log[|log| - 1].kind).0
  }

  /** Each operation reported what the locked one would have at its place. */
  predicate Legal(initial: nat, log: seq<Op>) {
    forall i | 0 <= i < |log| :: log[i].result == Locked(CountAfter(initial, log[..i]), log[i].kind).1
  }

  /** What the operations of one thread reported, in order. */
  function ResultsOf(log: seq<Op>, t: nat): seq<Result> {
    if log == [] then []
    else ResultsOf(log[..|log| - 1], t) + if log[|log| - 1].thread == t then [log[|log| - 1].result] else []
  }

  /** What a thread has still to return. */
  function Owed(th: Thread): seq<Result> {
    match th
    case Returning(r) => [r]
    case Doomed => [Abort]
    case _ => []
  }

  /** The operations have taken effect one at a time, as locked ones; each call
      that returned, or is about to, has taken effect exactly once. */
  ghost predicate Atomic(s: State, initial: nat) {
    && Sane(s)
    && s.count == CountAfter(initial, s.log)
    && Legal(initial, s.log)
    && (forall t {:trigger At(s, t)} :: ResultsOf(s.log, t) == ReturnedTo(s, t) + Owed(At(s, t)))
    && (forall t | t in s.threads && s.threads[t].Looping? ::
          s.threads[t].expected == CountAfter(initial, s.log[..s.threads[t].since]))
  }

  lemma SnocLog(initial: nat, log: seq<Op>, op: Op)
    requires Legal(initial, log) && op.result == Locked(CountAfter(initial, log), op.kind).1
    ensures CountAfter(initial, log + [op]) == Locked(CountAfter(initial, log), op.kind).0
    ensures Legal(initial, log + [op])
    ensures forall t :: ResultsOf(log + [op], t) == ResultsOf(log, t) + if op.thread == t then [op.result] else []
  {
    var l := log + [op];
    assert l[..|log|] == log;
    forall i | 0 <= i < |l| ensures l[i].result == Locked(CountAfter(initial, l[..i]), l[i].kind).1 {
      assert l[..i] == log[..i];
    }
  }

  lemma LockedBounded(count: nat, kind: Kind)
    ensures count <= MAX ==> Locked(count, kind).0 <= MAX
  {}

  /** An operation of thread t takes effect, and t leaves its loop. */
  lemma EffectAtomic(s: State, initial: nat, t: nat, kind: Kind, r: Result, c: nat, th: Thread)
    requires Atomic(s, initial) && Owed(At(s, t)) == [] && Owed(th) == [r] && !th.Looping?
    requires (c, r) == Locked(s.count, kind)
    ensures Atomic(s.(count := c, threads := s.threads[t := th], log := s.log + [Op(t, kind, r)]), initial)
  {
    var s' := s.(count := c, threads := s.threads[t := th], log := s.log + [Op(t, kind, r)]);
    LockedBounded(s.count, kind);
    SnocLog(initial, s.log, Op(t, kind, r));
    hide CountAfter, ResultsOf, Legal, Locked;
    forall u ensures ResultsOf(s'.log, u) == ReturnedTo(s', u) + Owed(At(s', u)) {
      assert ResultsOf(s.log, u) == ReturnedTo(s, u) + Owed(At(s, u));
    }
    forall u | u in s'.threads && s'.threads[u].Looping?
      ensures s'.threads[u].expected == CountAfter(initial, s'.log[..s'.threads[u].since])
    {
      assert s'.log[..s'.threads[u].since] == s.log[..s.threads[u].since];
    }
  }

  lemma LoopAtomic(s: State, initial: nat, t: nat, kind: Kind)
    requires Atomic(s, initial) && Owed(At(s, t)) == []
    requires s.count < MAX && (kind == Dec ==> s.count > 0)
    ensures Atomic(s.(threads := s.threads[t := Looping(kind, s.count, |s.log|)]), initial)
  {
    var s' := s.(threads := s.threads[t := Looping(kind, s.count, |s.log|)]);
    assert s.log[..|s.log|] == s.log;
    forall u ensures ResultsOf(s'.log, u) == ReturnedTo(s', u) + Owed(At(s', u)) {
      assert ResultsOf(s.log, u) == ReturnedTo(s, u) + Owed(At(s, u));
    }
  }

  lemma ReadAtomic(s: State, initial: nat, t: nat, kind: Kind)
    requires Atomic(s, initial) && Owed(At(s, t)) == []
    ensures Atomic(Read(s, t, kind), initial)
  {
    if s.count == MAX {
      var r := if kind == Inc then Done else Zero(false);
      EffectAtomic(s, initial, t, kind, r, s.count, Returning(r));
    } else if s.count == 0 && kind == Dec {
      EffectAtomic(s, initial, t, kind, Abort, s.count, Doomed);
    } else {
      LoopAtomic(s, initial, t, kind);
    }
  }

  lemma ReturnAtomic(s: State, initial: nat, t: nat)
    requires Atomic(s, initial) && At(s, t).Returning?
    ensures Atomic(s.(threads := s.threads[t := Idle],
                      returned := s.returned[t := ReturnedTo(s, t) + [At(s, t).result]]), initial)
  {
    var s' := s.(threads := s.threads[t := Idle], returned := s.returned[t := ReturnedTo(s, t) + [At(s, t).result]]);
    forall u ensures ResultsOf(s'.log, u) == ReturnedTo(s', u) + Owed(At(s', u)) {
      assert ResultsOf(s.log, u) == ReturnedTo(s, u) + Owed(At(s, u));
    }
  }

  lemma StepAtomic(s: State, initial: nat, e: Event)
    requires Atomic(s, initial)
    ensures Atomic(Step(s, e), initial)
  {
    hide CountAfter, ResultsOf, Legal;
    if !s.aborted {
      match e {
        case Call(t, kind) => if At(s, t).Idle? { ReadAtomic(s, initial, t, kind); }
        case Go(t, spurious) =>
          match At(s, t) {
            case Idle =>
            case Looping(kind, expected, _) =>
              if s.count == expected && !spurious {
                var (c, r) := Locked(s.count, kind);
                EffectAtomic(s, initial, t, kind, r, c, Returning(r));
              } else {
                ReadAtomic(s, initial, t, kind);
              }
            case Doomed =>
              forall u ensures ResultsOf(s.log, u) == ReturnedTo(s, u) + Owed(At(s, u)) {}
              forall u ensures At(s.(aborted := true), u) == At(s, u) && ReturnedTo(s.(aborted := true), u) == ReturnedTo(s, u) {}
            case Returning(_) => ReturnAtomic(s, initial, t);
          }
      }
    }
  }

  /** For every number of threads, every interleaving and every spurious failure:
      the lock-free operations take effect one at a time with the results and the
      count of the locked ones, each exactly once between its call and its
      return. */
  lemma {:induction false} RunAtomic(s: State, initial: nat, es: seq<Event>)
    requires Atomic(s, initial)
    ensures Atomic(Run(s, es), initial)
    decreases |es|
  {
    if es != [] {
      StepAtomic(s, initial, es[0]);
      RunAtomic(Step(s, es[0]), initial, es[1..]);
    }
  }

  lemma LockFreeRefinesLocked(initial: nat, es: seq<Event>)
    requires initial <= MAX
    ensures var s := Run(Start(initial), es);
            && s.count == CountAfter(initial, s.log) && Legal(initial, s.log)
            && forall t {:trigger At(s, t)} :: ResultsOf(s.log, t) == ReturnedTo(s, t) + Owed(At(s, t))
  {
    RunAtomic(Start(initial), initial, es);
  }

  lemma {:induction false} ChangedSomewhere(initial: nat, log: seq<Op>, i: nat) returns (k: nat)
    requires i <= |log| && CountAfter(initial, log[..i]) != CountAfter(initial, log)
    ensures i <= k < |log| && CountAfter(initial, log[..k + 1]) != CountAfter(initial, log[..k])
    decreases |log|
  {
    assert log[..|log|] == log;
    k := |log| - 1;
    if CountAfter(initial, log[..k]) == CountAfter(initial, log) {
      assert log[..k][..i] == log[..i];
      var j := ChangedSomewhere(initial, log[..k], i);
      assert log[..k][..j] == log[..j] && log[..k][..j + 1] == log[..j + 1];
      k := j;
    }
  }

  /** A thread is sent round its loop by another operation or by a spurious
      failure: if the count is no longer what it read, some operation has changed
      it since. */
  lemma FailureMeansProgress(initial: nat, es: seq<Event>, t: nat) returns (k: nat)
    requires initial <= MAX
    requires var s := Run(Start(initial), es); At(s, t).Looping? && At(s, t).expected != s.count
    ensures var s := Run(Start(initial), es);
            At(s, t).since <= k < |s.log| && CountAfter(initial, s.log[..k + 1]) != CountAfter(initial, s.log[..k])
  {
    RunAtomic(Start(initial), initial, es);
    var s := Run(Start(initial), es);
    hide CountAfter, Legal, ResultsOf;
    k := ChangedSomewhere(initial, s.log, At(s, t).since);
  }

  // ---------- What the locked operations guarantee ----------

  lemma {:induction false} SaturationAbsorbs(initial: nat, log: seq<Op>, i: nat)
    requires i <= |log|
    ensures CountAfter(initial, log[..i]) == MAX ==> CountAfter(initial, log) == MAX
    decreases |log|
  {
    if i == |log| {
      assert log[..i] == log;
    } else {
      assert log[..|log| - 1][..i] == log[..i];
      SaturationAbsorbs(initial, log[..|log| - 1], i);
    }
  }

  function Count(log: seq<Op>, kind: Kind): nat {
    if log == [] then 0
    else Count(log[..|log| - 1], kind) + if log[|log| - 1].kind == kind && log[|log| - 1].result != Abort then 1 else 0
  }

  /** Until it saturates the count is the initial one plus the increments less the
      decrements. */
  lemma {:induction false} Accounting(initial: nat, log: seq<Op>)
    requires initial <= MAX && Legal(initial, log) && CountAfter(initial, log) < MAX
    ensures CountAfter(initial, log) + Count(log, Dec) == initial + Count(log, Inc)
    decreases |log|
  {
    if log != [] {
      var l := log[..|log| - 1];
      assert log[|log| - 1].result == Locked(CountAfter(initial, l), log[|log| - 1].kind).1;
      LegalPrefix(initial, log, |log| - 1);
      hide Legal;
      CountBounded(initial, l);
      SaturationAbsorbs(initial, log, |log| - 1);
      Accounting(initial, l);
    }
  }

  lemma LegalPrefix(initial: nat, log: seq<Op>, n: nat)
    requires Legal(initial, log) && n <= |log|
    ensures Legal(initial, log[..n])
  {
    forall i | 0 <= i < n ensures log[..n][i].result == Locked(CountAfter(initial, log[..n][..i]), log[..n][i].kind).1 {
      assert log[..n][..i] == log[..i];
    }
  }

  lemma {:induction false} CountBounded(initial: nat, log: seq<Op>)
    requires initial <= MAX
    ensures CountAfter(initial, log) <= MAX
  {
    if log != [] { CountBounded(initial, log[..|log| - 1]); }
  }

  /** The log never brings the count, kept without a limit, up to the largest
      32-bit number. */
  predicate Unsaturated(initial: nat, log: seq<Op>) {
    forall i | 0 <= i <= |log| :: initial + Count(log[..i], Inc) < 0xffff_ffff + Count(log[..i], Dec)
  }

  lemma UnsaturatedPrefix(initial: nat, log: seq<Op>, n: nat)
    requires Unsaturated(initial, log) && n <= |log|
    ensures Unsaturated(initial, log[..n])
  {
    forall i | 0 <= i <= n ensures initial + Count(log[..n][..i], Inc) < 0xffff_ffff + Count(log[..n][..i], Dec) {
      assert log[..n][..i] == log[..i];
    }
  }

  /** As long as it does not, the count is exact. */
  lemma {:induction false} ExactCount(initial: nat, log: seq<Op>)
    requires Legal(initial, log) && Unsaturated(initial, log)
    ensures CountAfter(initial, log) + Count(log, Dec) == initial + Count(log, Inc)
    decreases |log|
  {
    assert log[..|log|] == log;
    if log != [] {
      var n := |log| - 1;
      LegalPrefix(initial, log, n);
      UnsaturatedPrefix(initial, log, n);
      ExactCount(initial, log[..n]);
      assert initial + Count(log, Inc) < 0xffff_ffff + Count(log, Dec);
      assert log[n].result == Locked(CountAfter(initial, log[..n]), log[n].kind).1;
    }
  }

  /** And each decrement tells what it did: that it took the last reference, that
      it did not, or that there was none to take, when the process aborts. */
  lemma ExactReports(initial: nat, log: seq<Op>, i: nat)
    requires Legal(initial, log) && i < |log| && Unsaturated(initial, log[..i])
    ensures var held := initial + Count(log[..i], Inc) - Count(log[..i], Dec);
            log[i].result == if log[i].kind == Inc then Done else if held == 0 then Abort else Zero(held == 1)
  {
    LegalPrefix(initial, log, i);
    ExactCount(initial, log[..i]);
    assert log[..i][..i] == log[..i];
    assert initial + Count(log[..i], Inc) < 0xffff_ffff + Count(log[..i], Dec);
  }

  /** Once it has, the count stays at 4294967295 and no decrement reports zero any
      more: the object is never freed. */
  lemma Saturated(initial: nat, log: seq<Op>, i: nat)
    requires Legal(initial, log) && i < |log|
    requires Unsaturated(initial, log[..i]) && !Unsaturated(initial, log[..i + 1])
    ensures CountAfter(initial, log) == 0xffff_ffff
    ensures forall k | i < k < |log| && log[k].kind == Dec :: log[k].result == Zero(false)
  {
    hide CountAfter, Count, Unsaturated, Legal, Locked;
    Reaches(initial, log, i);
    SaturationAbsorbs(initial, log, i + 1);
    forall k | i < k < |log| && log[k].kind == Dec ensures log[k].result == Zero(false) {
      assert log[..k][..i + 1] == log[..i + 1];
      SaturationAbsorbs(initial, log[..k], i + 1);
      NeverZero(initial, log, k);
    }
  }

  lemma NeverZero(initial: nat, log: seq<Op>, k: nat)
    requires Legal(initial, log) && k < |log| && log[k].kind == Dec && CountAfter(initial, log[..k]) == MAX
    ensures log[k].result == Zero(false)
  {
    hide CountAfter;
  }

  /** The operation that brings it there. */
  lemma Reaches(initial: nat, log: seq<Op>, i: nat)
    requires Legal(initial, log) && i < |log|
    requires Unsaturated(initial, log[..i]) && !Unsaturated(initial, log[..i + 1])
    ensures CountAfter(initial, log[..i + 1]) == 0xffff_ffff
  {
    LegalPrefix(initial, log, i);
    ExactCount(initial, log[..i]);
    var (l, m) := (log[..i], log[..i + 1]);
    assert m[..i] == l && l[..i] == l;
    assert initial + Count(l[..i], Inc) < 0xffff_ffff + Count(l[..i], Dec);
    assert m[..i + 1] == m;
    assert forall k | 0 <= k <= i :: l[..k] == m[..k];
    assert initial + Count(m, Inc) >= 0xffff_ffff + Count(m, Dec);
    assert log[i].result == Locked(CountAfter(initial, l), log[i].kind).1;
  }

  // ---------- One thread by itself ----------

  /** A thread that is not disturbed gets through an operation in two steps after
      the call, having done what the locked one does; it aborts only if there was
      nothing to take away, and then returns nothing. */
  lemma SoloCompletes(s: State, t: nat, kind: Kind)
    requires Sane(s) && !s.aborted && At(s, t).Idle?
    ensures var s' := Run(s, [Call(t, kind), Go(t, false), Go(t, false)]);
            var (c, r) := Locked(s.count, kind);
            && s'.count == c && s'.log == s.log + [Op(t, kind, r)]
            && s'.aborted == (s.count == 0 && kind == Dec)
            && ReturnedTo(s', t) == ReturnedTo(s, t) + (if s'.aborted then [] else [r])
            && (!s'.aborted ==> At(s', t).Idle?)
  {
    StepSane(s, Call(t, kind));
    var s1 := Step(s, Call(t, kind));
    StepSane(s1, Go(t, false));
    var s2 := Step(s1, Go(t, false));
    StepSane(s2, Go(t, false));
    RunThree(s, Call(t, kind), Go(t, false), Go(t, false));
    hide Run;
  }

  lemma RunThree(s: State, a: Event, b: Event, c: Event)
    requires Sane(s) && Sane(Step(s, a)) && Sane(Step(Step(s, a), b))
    ensures Run(s, [a, b, c]) == Step(Step(Step(s, a), b), c)
  {
    hide Step, Sane;
    assert [a, b, c][1..] == [b, c] && [b, c][1..] == [c] && [c][1..] == [];
    StepSane(Step(Step(s, a), b), c);
    assert Run(Step(Step(Step(s, a), b), c), []) == Step(Step(Step(s, a), b), c);
    assert Run(Step(Step(s, a), b), [c]) == Step(Step(Step(s, a), b), c);
  }

  ghost predicate AbortLogged(s: State) {
    && (s.aborted ==> exists k :: 0 <= k < |s.log| && s.log[k].result == Abort)
    && forall t :: At(s, t).Doomed? ==> exists k :: 0 <= k < |s.log| && s.log[k].result == Abort
  }

  /** The process aborts only when some decrement found nothing to take away. */
  lemma {:induction false} AbortsOnlyAtZero(s: State, es: seq<Event>)
    requires Sane(s) && AbortLogged(s)
    ensures AbortLogged(Run(s, es))
    decreases |es|
  {
    if es != [] {
      StepSane(s, es[0]);
      StepAborts(s, es[0]);
      AbortsOnlyAtZero(Step(s, es[0]), es[1..]);
    }
  }

  lemma StepAborts(s: State, e: Event)
    requires Sane(s) && AbortLogged(s)
    ensures AbortLogged(Step(s, e))
  {
    var s' := Step(s, e);
    assert forall k | 0 <= k < |s.log| :: s'.log[k] == s.log[k];
    forall t | At(s', t).Doomed? ensures exists k :: 0 <= k < |s'.log| && s'.log[k].result == Abort {
      if At(s, t).Doomed? {
        var k :| 0 <= k < |s.log| && s.log[k].result == Abort;
        assert s'.log[k].result == Abort;
      } else {
        assert s'.log[|s'.log| - 1].result == Abort;
      }
    }
  }

  lemma AbortsFromStart(initial: nat, es: seq<Event>)
    requires initial <= 0xffff_ffff
    ensures AbortLogged(Run(Start(initial), es)) && !Start(initial).aborted
  {
    AbortsOnlyAtZero(Start(initial), es);
  }

  /** From zero only an increment leads away. */
  lemma {:induction false} StaysZero(initial: nat, log: seq<Op>, i: nat, j: nat)
    requires i <= j <= |log| && CountAfter(initial, log[..i]) == 0
    requires forall k | i <= k < j :: log[k].kind == Inc ==> CountAfter(initial, log[..k]) != 0
    ensures CountAfter(initial, log[..j]) == 0
    decreases j - i
  {
    if i < j {
      StaysZero(initial, log, i, j - 1);
      assert log[..j][..j - 1] == log[..j - 1];
    }
  }

  /** At most one decrement per life reports zero: between two that do, the count
      was incremented from zero. */
  lemma OneZeroPerLife(initial: nat, log: seq<Op>, i: nat, j: nat)
    requires Legal(initial, log) && i < j < |log| && log[i].result == Zero(true) && log[j].result == Zero(true)
    ensures exists k | i < k < j :: log[k].kind == Inc && CountAfter(initial, log[..k]) == 0
  {
    assert log[..i + 1][..i] == log[..i];
    assert CountAfter(initial, log[..i + 1]) == 0;
    if forall k | i + 1 <= k < j :: log[k].kind == Inc ==> CountAfter(initial, log[..k]) != 0 {
      StaysZero(initial, log, i + 1, j);
    }
  }
}
