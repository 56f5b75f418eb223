/** What one call of `Mine` guarantees, for every worker count and every interleaving. */
module MiningTheorems {
  import opened Records
  import opened Blocks
  import opened Integers
  import opened Mining
  import opened MiningProofs
  import opened ProofOfWork

  lemma ReachableOk(cfg: Config, parent: Option<ContextError>, run: seq<Action>)
    requires cfg.Valid() && IsRun(cfg, Init(cfg, parent), run)
    ensures Inv(cfg, Execute(cfg, Init(cfg, parent), run))
  {
    InitOk(cfg, parent);
    RunKept(cfg, Init(cfg, parent), run);
  }

  /** A timeout is reported only when the parent's deadline has passed, a cancellation only when the parent
    was cancelled. */
  lemma ParentIsReported(cfg: Config, parent: Option<ContextError>, run: seq<Action>)
    requires cfg.Valid() && IsCompleteRun(cfg, parent, run)
    ensures var final := Execute(cfg, Init(cfg, parent), run);
            && (final.main.outcome == MiningTimeout ==> final.parent == Some(DeadlineExceeded))
            && (final.main.outcome == MiningCancelled ==> final.parent == Some(ContextCanceled))
            && (parent.Some? ==> final.parent == parent)
  {
    hide IsRun, Execute, Init, WorkersOk, LogOk, AttemptsOk, CancelOk;
    ReachableOk(cfg, parent, run);
    EndedParentStays(cfg, Init(cfg, parent), run);
    InitParent(cfg, parent);
  }

  lemma InitParent(cfg: Config, parent: Option<ContextError>)
    requires cfg.Valid()
    ensures Init(cfg, parent).parent == parent
  {}

  lemma {:induction false} EndedParentStays(cfg: Config, s: State, run: seq<Action>)
    requires cfg.Valid() && IsRun(cfg, s, run)
    ensures s.parent.Some? ==> Execute(cfg, s, run).parent == s.parent
    decreases |run|
  {
    if run != [] {
      hide Apply;
      if !run[0].ParentEnds? {
        ParentStays(cfg, s, run[0]);
      }
      EndedParentStays(cfg, Apply(cfg, s, run[0]), run[1..]);
    }
  }

  // ---------- the search ----------

  /** When all workers are gone and nothing was delivered, no hashed nonce is a hit. */
  lemma NothingHidden(cfg: Config, s: State)
    requires cfg.Valid() && Inv(cfg, s) && Exhausted(s.main)
    ensures !AnyDelivered(s.workers)
    ensures forall m: uint64 :: m in s.log ==> !cfg.Hit(m)
  {
    hide ComputeHash, MeetsDifficulty, Residue, AttemptsOk, CancelOk, WorkerOk;
    assert AllExited(s.workers);
    forall m: uint64 | m in s.log ensures !cfg.Hit(m) {
      var i := Residue(m, cfg.workers);
      assert s.workers[i].pc.Exited? && !Delivered(s.workers[i].pc);
    }
  }

  /** A worker that stopped by itself has hashed its whole stripe. */
  lemma StripeDone(cfg: Config, s: State, m: uint64)
    requires cfg.Valid() && Inv(cfg, s) && m <= cfg.LastNonce()
    requires var pc := s.workers[Residue(m, cfg.workers)].pc; pc.Exited? && pc.reason in {PastMaxNonce, NonceOverflow}
    ensures m in s.log
  {
    hide ComputeHash, MeetsDifficulty, AttemptsOk, CancelOk, ResultOk;
    var i := Residue(m, cfg.workers);
    var w := s.workers[i];
    assert WorkerOk(cfg, i, w);
    if w.pc.reason.NonceOverflow? && m > w.nonce {
      Stride(m, w.nonce, cfg.workers);
    }
  }

  /** ErrMaxNonce without a parent that ends: every admitted nonce was hashed and none is a hit. */
  lemma MaxNonceMeansComplete(cfg: Config, parent: Option<ContextError>, run: seq<Action>)
    requires cfg.Valid() && IsCompleteRun(cfg, parent, run)
    requires var final := Execute(cfg, Init(cfg, parent), run);
             final.main.outcome == MaxNonce && final.parent.None?
    ensures var final := Execute(cfg, Init(cfg, parent), run);
            forall m: uint64 :: m <= cfg.LastNonce() ==> m in final.log && !cfg.Hit(m)
  {
    hide ComputeHash, MeetsDifficulty, Residue, IsRun, Execute;
    var s := Execute(cfg, Init(cfg, parent), run);
    ReachableOk(cfg, parent, run);
    NothingHidden(cfg, s);
    assert AllExited(s.workers);
    forall m: uint64 | m <= cfg.LastNonce() ensures m in s.log {
      WorkerStoppedItself(cfg, s, Residue(m, cfg.workers));
      StripeDone(cfg, s, m);
    }
  }

  lemma WorkerStoppedItself(cfg: Config, s: State, i: nat)
    requires cfg.Valid() && Inv(cfg, s) && i < cfg.workers
    requires s.main == Returned(MaxNonce) && s.parent.None?
    ensures s.workers[i].pc.Exited? && s.workers[i].pc.reason in {PastMaxNonce, NonceOverflow}
  {
    hide ComputeHash, MeetsDifficulty, Residue, LogOk, WorkerOk;
    NothingHidden(cfg, s);
    assert AllExited(s.workers);
    assert !Delivered(s.workers[i].pc);
    assert s.workers[i].pc != Exited(SawCancel);
    assert !OverCap(s.workers[i].pc);
  }

  /** No result is lost: once a hit is hashed, the call succeeds, unless the parent ends and the call
    says so. It never claims that the limits were exhausted. */
  lemma HitMeansSuccess(cfg: Config, parent: Option<ContextError>, run: seq<Action>, m: uint64)
    requires cfg.Valid() && IsCompleteRun(cfg, parent, run)
    requires m in Execute(cfg, Init(cfg, parent), run).log && cfg.Hit(m)
    ensures var final := Execute(cfg, Init(cfg, parent), run);
            || final.main.outcome.Success?
            || (final.parent.Some? && final.main.outcome in {MiningTimeout, MiningCancelled})
  {
    hide ComputeHash, MeetsDifficulty, Residue, IsRun, Execute;
    var s := Execute(cfg, Init(cfg, parent), run);
    ReachableOk(cfg, parent, run);
    if Exhausted(s.main) {
      NothingHidden(cfg, s);
    }
  }

  /** A nonce is a hit when the digest it leads to, as a number, is below 16^(64 - difficulty). */
  lemma HitExactly(cfg: Config, m: uint64)
    requires cfg.Valid()
    ensures cfg.Hit(m) <==>
            BigEndian(cfg.lib.sha256(HeaderText(cfg.lib, cfg.block.(nonce := m))))
            < Power(16, 64 - cfg.block.difficulty)
  {
    hide MeetsDifficulty, ComputeHash;
    HashOfHeader(cfg.lib, cfg.block.(nonce := m));
    MeetsDifficultyExactly(cfg.lib.sha256(HeaderText(cfg.lib, cfg.block.(nonce := m))), cfg.block.difficulty);
  }

  /** A success changes exactly the nonce and the hash of the block, which is then mined; the nonce
    respects the cap and is the least hit of its stripe. */
  lemma SuccessIsMined(cfg: Config, parent: Option<ContextError>, run: seq<Action>)
    requires cfg.Valid() && IsCompleteRun(cfg, parent, run)
    requires Execute(cfg, Init(cfg, parent), run).main.outcome.Success?
    ensures var final := Execute(cfg, Init(cfg, parent), run);
            var o := final.main.outcome;
            && final.block == cfg.block.(nonce := o.nonce, hash := o.hash)
            && final.block.hash == ComputeHash(cfg.lib, final.block)
            && MeetsDifficulty(final.block.hash, final.block.difficulty)
            && IsWorked(cfg.lib, final.block)
            && (cfg.limits.maxNonce > 0 ==> o.nonce <= cfg.limits.maxNonce)
            && o.nonce in final.log
            && o.attempts <= final.attempts && o.difficulty == cfg.block.difficulty && o.workers == cfg.workers
            && forall k: uint64 ::
                 k < o.nonce && Residue(k, cfg.workers) == Residue(o.nonce, cfg.workers) ==> !cfg.Hit(k)
  {
    hide MeetsDifficulty, Residue, IsRun, Execute, IsWorked;
    var s := Execute(cfg, Init(cfg, parent), run);
    ReachableOk(cfg, parent, run);
    var o := s.main.outcome;
    assert FoundOk(cfg, s, Found(o.nonce, o.hash));
    assert s.block.Payload() == cfg.block.(nonce := o.nonce).Payload();
    LeastInStripe(cfg, s, o.nonce);
    WorkedExactly(cfg.lib, s.block);
  }

  lemma LeastInStripe(cfg: Config, s: State, m: uint64)
    requires cfg.Valid() && Inv(cfg, s) && m in s.log && cfg.Hit(m)
    ensures forall k: uint64 ::
              k < m && Residue(k, cfg.workers) == Residue(m, cfg.workers) ==> k in s.log && !cfg.Hit(k)
  {
    hide ComputeHash, MeetsDifficulty, Residue, AttemptsOk, ResultOk, CancelOk, WorkerOk, Config.Hit;
    assert s.workers[Residue(m, cfg.workers)].nonce == m;
    forall k: uint64 | k < m && Residue(k, cfg.workers) == Residue(m, cfg.workers)
      ensures k in s.log && !cfg.Hit(k)
    {
      assert Tried(s.workers[Residue(k, cfg.workers)], k);
    }
  }

  // ---------- attempts ----------

  lemma {:induction false} SumAtMost(workers: seq<Worker>, f: Worker -> nat, bound: nat)
    requires forall i :: 0 <= i < |workers| ==> f(workers[i]) <= bound
    ensures Sum(workers, f) <= |workers| * bound
  {
    if workers != [] {
      SumAtMost(workers[1..], f, bound);
      assert |workers| * bound == |workers[1..]| * bound + bound;
    }
  }

  /** In every reachable state no nonce was hashed twice; the counter equals the hashes made, the
    ones in flight and the increments over the cap, of which each worker makes at most one. */
  lemma AttemptsAreExact(cfg: Config, parent: Option<ContextError>, run: seq<Action>)
    requires cfg.Valid() && IsRun(cfg, Init(cfg, parent), run)
    ensures var s := Execute(cfg, Init(cfg, parent), run);
            && (forall i, j :: 0 <= i < j < |s.log| ==> s.log[i] != s.log[j])
            && s.attempts == |s.log| + Sum(s.workers, InFlightCount) + Sum(s.workers, OverCapCount)
            && Sum(s.workers, OverCapCount) <= cfg.workers
            && (cfg.limits.maxAttempts == 0 ==> Sum(s.workers, OverCapCount) == 0)
            && (cfg.limits.maxAttempts > 0 ==> |s.log| <= cfg.limits.maxAttempts)
  {
    hide ComputeHash, MeetsDifficulty, Residue, IsRun, Execute, Sum;
    var s := Execute(cfg, Init(cfg, parent), run);
    ReachableOk(cfg, parent, run);
    SumAtMost(s.workers, OverCapCount, 1);
  }

  /** ErrMaxAttempts means exactly MaxAttempts nonces were hashed, none of them a hit, whether or not
    the parent ends. */
  lemma MaxAttemptsIsExact(cfg: Config, parent: Option<ContextError>, run: seq<Action>)
    requires cfg.Valid() && IsCompleteRun(cfg, parent, run)
    requires Execute(cfg, Init(cfg, parent), run).main.outcome == MaxAttempts
    ensures var final := Execute(cfg, Init(cfg, parent), run);
            && cfg.limits.maxAttempts > 0
            && |final.log| == cfg.limits.maxAttempts
            && forall m: uint64 :: m in final.log ==> !cfg.Hit(m)
  {
    hide ComputeHash, MeetsDifficulty, Residue, IsRun, Execute, Sum;
    var s := Execute(cfg, Init(cfg, parent), run);
    ReachableOk(cfg, parent, run);
    NothingHidden(cfg, s);
    assert AllExited(s.workers);
    SumZero(s.workers, InFlightCount);
  }

  // ---------- one worker ----------

  /** With one worker a success is the least hit of all nonces, found on attempt nonce + 1, and the
    reported attempts are exactly the hashes made. */
  lemma SingleWorkerFindsLeast(cfg: Config, parent: Option<ContextError>, run: seq<Action>)
    requires cfg.Valid() && cfg.workers == 1 && IsCompleteRun(cfg, parent, run)
    requires Execute(cfg, Init(cfg, parent), run).main.outcome.Success?
    ensures var final := Execute(cfg, Init(cfg, parent), run);
            var o := final.main.outcome;
            && cfg.Hit(o.nonce)
            && (forall k: uint64 :: k < o.nonce ==> !cfg.Hit(k))
            && o.attempts == o.nonce + 1 == |final.log|
  {
    hide ComputeHash, MeetsDifficulty, IsRun, Execute;
    var s := Execute(cfg, Init(cfg, parent), run);
    ReachableOk(cfg, parent, run);
    var m := s.main.outcome.nonce;
    assert FoundOk(cfg, s, Found(m, s.main.outcome.hash));
    assert Residue(m, 1) == 0;
    assert s.workers[Residue(m, cfg.workers)].nonce == m && OnHit(s.workers[0].pc);
    LeastInStripe(cfg, s, m);
    forall k: uint64 | k < m ensures !cfg.Hit(k) {
      assert Residue(k, 1) == Residue(m, 1);
    }
  }

  /** Genesis is deterministic: any two successful single-worker calls on one block agree on the
    block they produce, whatever the limits, the parent and the interleaving. */
  lemma GenesisDeterministic(a: Config, pa: Option<ContextError>, ra: seq<Action>,
                             b: Config, pb: Option<ContextError>, rb: seq<Action>)
    requires a.Valid() && b.Valid() && a.lib == b.lib && a.block == b.block && a.workers == b.workers == 1
    requires IsCompleteRun(a, pa, ra) && IsCompleteRun(b, pb, rb)
    requires Execute(a, Init(a, pa), ra).main.outcome.Success? && Execute(b, Init(b, pb), rb).main.outcome.Success?
    ensures Execute(a, Init(a, pa), ra).block == Execute(b, Init(b, pb), rb).block
    ensures Execute(a, Init(a, pa), ra).main.outcome == Execute(b, Init(b, pb), rb).main.outcome
  {
    hide ComputeHash, MeetsDifficulty, IsRun, Execute, Sum, Residue;
    SingleWorkerFindsLeast(a, pa, ra);
    SingleWorkerFindsLeast(b, pb, rb);
    ReachableOk(a, pa, ra);
    ReachableOk(b, pb, rb);
    var s, t := Execute(a, Init(a, pa), ra), Execute(b, Init(b, pb), rb);
    var m, k := s.main.outcome.nonce, t.main.outcome.nonce;
    assert a.Hit(k) == b.Hit(k) && a.Hit(m) == b.Hit(m);
    assert m == k;
    assert FoundOk(a, s, Found(m, s.main.outcome.hash)) && FoundOk(b, t, Found(k, t.main.outcome.hash));
  }

  // ---------- termination ----------

  /** A call that has not returned can always move, without any help from its parent. */
  lemma NoDeadlock(s: State)
    requires !s.main.Returned?
    ensures exists a :: Enabled(s, a) && !a.ParentEnds?
  {
    if !s.main.Select? {
      assert Enabled(s, MainStep);
    } else if s.workersDone {
      assert Enabled(s, SeeDone);
    } else if AllExited(s.workers) {
      assert Enabled(s, CloseDone);
    } else {
      var i :| 0 <= i < |s.workers| && !s.workers[i].pc.Exited?;
      assert Enabled(s, WorkerStep(i, 0, ""));
    }
  }

  function MainRank(main: MainPc): nat {
    match main
    case Select => 7
    case Recheck => 6
    case LoadMaximum => 5
    case StoreNonce(_) => 4
    case StoreHash(_) => 3
    case LoadAttempts(_) => 2
    case Returning(_) => 1
    case Returned(_) => 0
  }

  /** Steps left to the caller, the closing goroutine and the environment. */
  function OtherSteps(s: State): nat {
    MainRank(s.main)
    + (if s.workersDone then 0 else 1) + (if s.parent.None? then 1 else 0) + (if s.cancelled then 0 else 1)
  }

  function Remaining(cfg: Config, w: Worker): nat {
    if w.nonce <= cfg.LastNonce() then cfg.LastNonce() + 1 - w.nonce else 0
  }

  function PassRank(pc: WorkerPc): nat {
    match pc
    case CheckContext => 7
    case Count => 6
    case Copy => 5
    case HashCopy(_) => 4
    case Send(_) => 3
    case CancelAfterSend => 2
    case StoreMaximum => 5
    case CancelAtMaximum => 4
    case Exited(_) => 0
  }

  /** Bounds the steps of one worker by the nonces it has left. */
  function WorkLeft(cfg: Config): Worker -> nat {
    w => 10 * Remaining(cfg, w) + PassRank(w.pc)
  }

  function Measure(cfg: Config, s: State): nat {
    Sum(s.workers, WorkLeft(cfg)) + OtherSteps(s)
  }

  lemma WorkerStepIsLocal(cfg: Config, s: State, i: nat, m: uint64, h: string)
    requires cfg.Valid() && i < |s.workers| && !s.workers[i].pc.Exited?
    ensures OtherSteps(StepWorker(cfg, s, i, m, h)) <= OtherSteps(s)
  {
    hide StepWorker;
    WorkerStepFrame(cfg, s, i, m, h);
  }

  lemma MeasureDecreases(cfg: Config, s: State, a: Action)
    requires cfg.Valid() && Inv(cfg, s) && Enabled(s, a)
    ensures Measure(cfg, Apply(cfg, s, a)) < Measure(cfg, s)
  {
    hide ComputeHash, MeetsDifficulty, Residue, Sum, LogOk, AttemptsOk, ResultOk, CancelOk, StepWorker, WorkLeft;
    if a.WorkerStep? {
      var s' := StepWorker(cfg, s, a.id, a.seenNonce, a.seenHash);
      WorkerStepFrame(cfg, s, a.id, a.seenNonce, a.seenHash);
      WorkerStepIsLocal(cfg, s, a.id, a.seenNonce, a.seenHash);
      WorkDecreases(cfg, s, a.id, a.seenNonce, a.seenHash);
      SumUpdate(s.workers, WorkLeft(cfg), a.id, s'.workers[a.id]);
    }
  }

  lemma WorkDecreases(cfg: Config, s: State, i: nat, m: uint64, h: string)
    requires cfg.Valid() && WorkersOk(cfg, s)
    requires i < |s.workers| && !s.workers[i].pc.Exited?
    ensures var s' := StepWorker(cfg, s, i, m, h);
            i < |s'.workers| && WorkLeft(cfg)(s'.workers[i]) < WorkLeft(cfg)(s.workers[i])
  {
    hide ComputeHash, MeetsDifficulty, Residue;
    assert WorkerOk(cfg, i, s.workers[i]);
  }

  lemma {:induction false} RunBounded(cfg: Config, s: State, run: seq<Action>)
    requires cfg.Valid() && Inv(cfg, s) && IsRun(cfg, s, run)
    ensures |run| + Measure(cfg, Execute(cfg, s, run)) <= Measure(cfg, s)
    decreases |run|
  {
    if run != [] {
      hide Apply, Enabled, Measure, Inv;
      StepKept(cfg, s, run[0]);
      MeasureDecreases(cfg, s, run[0]);
      RunBounded(cfg, Apply(cfg, s, run[0]), run[1..]);
    }
  }

  /** Every run is finite, with an explicit bound in the admitted nonces. */
  lemma EveryRunEnds(cfg: Config, parent: Option<ContextError>, run: seq<Action>)
    requires cfg.Valid() && IsRun(cfg, Init(cfg, parent), run)
    ensures |run| <= cfg.workers * (10 * (cfg.LastNonce() + 1) + 7) + 10
  {
    var s := Init(cfg, parent);
    InitOk(cfg, parent);
    RunBounded(cfg, s, run);
    SumAtMost(s.workers, WorkLeft(cfg), 10 * (cfg.LastNonce() + 1) + 7);
  }

  lemma ParentStays(cfg: Config, s: State, a: Action)
    requires cfg.Valid() && Enabled(s, a) && !a.ParentEnds?
    ensures Apply(cfg, s, a).parent == s.parent
  {
    hide ComputeHash, MeetsDifficulty;
  }

  /** From every state of the protocol the call can still return, without its parent ending. */
  lemma {:induction false} Completion(cfg: Config, s: State) returns (rest: seq<Action>)
    requires cfg.Valid() && Inv(cfg, s)
    ensures IsRun(cfg, s, rest) && Execute(cfg, s, rest).main.Returned?
    ensures Execute(cfg, s, rest).parent == s.parent
    decreases Measure(cfg, s)
  {
    rest := [];
    if !s.main.Returned? {
      hide Apply, Enabled, Measure, Inv;
      NoDeadlock(s);
      var a :| Enabled(s, a) && !a.ParentEnds?;
      ParentStays(cfg, s, a);
      StepKept(cfg, s, a);
      MeasureDecreases(cfg, s, a);
      var tail := Completion(cfg, Apply(cfg, s, a));
      rest := [a] + tail;
      assert rest[1..] == tail;
    }
  }

  /** Every run of a call extends to one in which the call returns, without its parent ending. */
  lemma EveryRunCanComplete(cfg: Config, parent: Option<ContextError>, run: seq<Action>) returns (rest: seq<Action>)
    requires cfg.Valid() && IsRun(cfg, Init(cfg, parent), run)
    ensures IsCompleteRun(cfg, parent, run + rest)
    ensures Execute(cfg, Init(cfg, parent), run + rest).parent == Execute(cfg, Init(cfg, parent), run).parent
  {
    hide IsRun, Execute;
    ReachableOk(cfg, parent, run);
    rest := Completion(cfg, Execute(cfg, Init(cfg, parent), run));
    RunsCompose(cfg, Init(cfg, parent), run, rest);
  }

  function AttemptRank(pc: WorkerPc): nat {
    match pc
    case CheckContext => 2
    case Count => 1
    case Copy => 9
    case HashCopy(_) => 8
    case Send(_) => 7
    case CancelAfterSend => 6
    case StoreMaximum => 3
    case CancelAtMaximum => 2
    case Exited(_) => 0
  }

  function StepsOfPass(): Worker -> nat {
    (w: Worker) => AttemptRank(w.pc)
  }

  function AttemptMeasure(cfg: Config, s: State): int {
    10 * (cfg.limits.maxAttempts + cfg.workers - s.attempts) + Sum(s.workers, StepsOfPass()) + OtherSteps(s)
  }

  lemma PassDecreases(cfg: Config, s: State, i: nat, m: uint64, h: string)
    requires cfg.Valid() && i < |s.workers| && !s.workers[i].pc.Exited?
    ensures var s' := StepWorker(cfg, s, i, m, h);
            && i < |s'.workers|
            && s.attempts <= s'.attempts
            && AttemptRank(s'.workers[i].pc) < AttemptRank(s.workers[i].pc) + 10 * (s'.attempts - s.attempts)
  {
    hide ComputeHash, MeetsDifficulty;
  }

  lemma AttemptMeasureDecreases(cfg: Config, s: State, a: Action)
    requires cfg.Valid() && Enabled(s, a)
    ensures AttemptMeasure(cfg, Apply(cfg, s, a)) < AttemptMeasure(cfg, s)
  {
    hide Sum, StepWorker, AttemptRank;
    if a.WorkerStep? {
      var s' := StepWorker(cfg, s, a.id, a.seenNonce, a.seenHash);
      WorkerStepFrame(cfg, s, a.id, a.seenNonce, a.seenHash);
      WorkerStepIsLocal(cfg, s, a.id, a.seenNonce, a.seenHash);
      PassDecreases(cfg, s, a.id, a.seenNonce, a.seenHash);
      SumUpdate(s.workers, StepsOfPass(), a.id, s'.workers[a.id]);
    }
  }

  lemma {:induction false} RunBoundedByAttempts(cfg: Config, s: State, run: seq<Action>)
    requires cfg.Valid() && IsRun(cfg, s, run)
    ensures |run| + AttemptMeasure(cfg, Execute(cfg, s, run)) <= AttemptMeasure(cfg, s)
    decreases |run|
  {
    if run != [] {
      hide Apply, Enabled, AttemptMeasure;
      AttemptMeasureDecreases(cfg, s, run[0]);
      RunBoundedByAttempts(cfg, Apply(cfg, s, run[0]), run[1..]);
    }
  }

  /** With a cap on attempts, every run is bounded by the cap and the worker count alone. */
  lemma CappedRunEnds(cfg: Config, parent: Option<ContextError>, run: seq<Action>)
    requires cfg.Valid() && cfg.limits.maxAttempts > 0 && IsRun(cfg, Init(cfg, parent), run)
    ensures |run| <= 10 * cfg.limits.maxAttempts + 12 * cfg.workers + 10
  {
    hide ComputeHash, MeetsDifficulty, Residue, IsRun, Execute, Sum;
    var s := Init(cfg, parent);
    RunBoundedByAttempts(cfg, s, run);
    ReachableOk(cfg, parent, run);
    var t := Execute(cfg, s, run);
    SumAtMost(s.workers, StepsOfPass(), 2);
    SumAtMost(t.workers, OverCapCount, 1);
    assert t.attempts <= cfg.limits.maxAttempts + cfg.workers;
  }

  // ---------- cancellation ----------

  /** A delivered result, an exhausted cap and a return all cancel the search. */
  lemma EndingsCancel(cfg: Config, parent: Option<ContextError>, run: seq<Action>)
    requires cfg.Valid() && IsRun(cfg, Init(cfg, parent), run)
    ensures StopOk(Execute(cfg, Init(cfg, parent), run))
  {
    hide IsRun, Execute, WorkersOk, LogOk, AttemptsOk, ResultOk, CancelOk, StopOk;
    ReachableOk(cfg, parent, run);
  }

  /** The worker may hash once more after a cancellation. */
  function LastHash(w: Worker): nat {
    if w.pc.Count? || w.pc.Copy? || w.pc.HashCopy? then 1 else 0
  }

  lemma CancelledStep(cfg: Config, s: State, a: Action)
    requires cfg.Valid() && Enabled(s, a) && s.cancelled
    ensures var s' := Apply(cfg, s, a);
            && s'.cancelled
            && |s'.workers| == |s.workers|
            && |s'.log| + Sum(s'.workers, LastHash) <= |s.log| + Sum(s.workers, LastHash)
  {
    hide ComputeHash, MeetsDifficulty, Sum;
    if a.WorkerStep? {
      var s' := StepWorker(cfg, s, a.id, a.seenNonce, a.seenHash);
      assert s'.workers == s.workers[a.id := s'.workers[a.id]];
      SumUpdate(s.workers, LastHash, a.id, s'.workers[a.id]);
    }
  }

  lemma {:induction false} CancelledRun(cfg: Config, s: State, run: seq<Action>)
    requires cfg.Valid() && IsRun(cfg, s, run) && s.cancelled
    ensures var final := Execute(cfg, s, run);
            |final.log| + Sum(final.workers, LastHash) <= |s.log| + Sum(s.workers, LastHash)
    decreases |run|
  {
    if run != [] {
      hide Apply, Enabled, Sum;
      CancelledStep(cfg, s, run[0]);
      CancelledRun(cfg, Apply(cfg, s, run[0]), run[1..]);
    }
  }

  /** Once cancelled, each worker hashes at most one more nonce. */
  lemma CancelStopsPromptly(cfg: Config, s: State, run: seq<Action>)
    requires cfg.Valid() && IsRun(cfg, s, run) && s.cancelled
    ensures |Execute(cfg, s, run).log| <= |s.log| + |s.workers|
  {
    hide IsRun, Execute, Sum;
    CancelledRun(cfg, s, run);
    SumAtMost(s.workers, LastHash, 1);
  }

  // ---------- a parent that ends ----------

  function StopAll(k: nat): seq<Action> {
    if k == 0 then [] else StopAll(k - 1) + [WorkerStep(k - 1, 0, "")]
  }

  function Stopped(cfg: Config, error: ContextError, k: nat): State
    requires cfg.Valid() && k <= cfg.workers
  {
    Init(cfg, Some(error)).(workers := seq(cfg.workers, i requires 0 <= i < cfg.workers =>
      Worker(i, if i < k then Exited(SawCancel) else CheckContext)))
  }

  lemma {:induction false} StoppedReached(cfg: Config, error: ContextError, k: nat)
    requires cfg.Valid() && k <= cfg.workers
    ensures IsRun(cfg, Init(cfg, Some(error)), StopAll(k))
    ensures Execute(cfg, Init(cfg, Some(error)), StopAll(k)) == Stopped(cfg, error, k)
  {
    var s := Init(cfg, Some(error));
    if k == 0 {
      assert s.workers == Stopped(cfg, error, 0).workers;
    } else {
      StoppedReached(cfg, error, k - 1);
      var before, a := Stopped(cfg, error, k - 1), WorkerStep(k - 1, 0, "");
      assert Enabled(before, a);
      RunAppend(cfg, s, StopAll(k - 1), a);
      assert Apply(cfg, before, a).workers == Stopped(cfg, error, k).workers;
    }
  }

  /** Before the call, or as its first event: the parent has ended with the given error. */
  function EndFirst(parent: Option<ContextError>, error: ContextError): seq<Action> {
    if parent.Some? then [] else [ParentEnds(error), Propagate]
  }

  lemma EndedFirst(cfg: Config, parent: Option<ContextError>, error: ContextError)
    requires cfg.Valid() && parent in {None, Some(error)}
    ensures IsRun(cfg, Init(cfg, parent), EndFirst(parent, error))
    ensures Execute(cfg, Init(cfg, parent), EndFirst(parent, error)) == Init(cfg, Some(error))
  {
    if parent.None? {
      var s := Init(cfg, None);
      var t := Apply(cfg, s, ParentEnds(error));
      assert IsRun(cfg, Apply(cfg, t, Propagate), []);
      assert [ParentEnds(error), Propagate][1..] == [Propagate] && [Propagate][1..] == [];
      assert IsRun(cfg, t, [Propagate]) && Execute(cfg, t, [Propagate]) == Init(cfg, Some(error));
    }
  }

  /** The completeness of ErrMaxNonce needs a parent that does not end: whether it ends before the
    call or during it, every call has a schedule that returns ErrMaxNonce with nothing hashed at all. */
  lemma EndedParentMayReportMaxNonce(cfg: Config, parent: Option<ContextError>, error: ContextError)
    returns (run: seq<Action>)
    requires cfg.Valid() && parent in {None, Some(error)}
    ensures IsCompleteRun(cfg, parent, run)
    ensures Execute(cfg, Init(cfg, parent), run).main == Returned(MaxNonce)
    ensures Execute(cfg, Init(cfg, parent), run).log == []
  {
    hide IsRun, Execute, StepWorker;
    var s := Init(cfg, Some(error));
    run := StopAll(cfg.workers);
    StoppedReached(cfg, error, cfg.workers);
    assert AllExited(Execute(cfg, s, run).workers);
    RunAppend(cfg, s, run, CloseDone);
    run := run + [CloseDone];
    RunAppend(cfg, s, run, SeeDone);
    run := run + [SeeDone];
    RunAppend(cfg, s, run, MainStep);
    run := run + [MainStep];
    RunAppend(cfg, s, run, MainStep);
    run := run + [MainStep];
    RunAppend(cfg, s, run, MainStep);
    run := run + [MainStep];
    EndedFirst(cfg, parent, error);
    RunsCompose(cfg, Init(cfg, parent), EndFirst(parent, error), run);
    run := EndFirst(parent, error) + run;
  }
}
