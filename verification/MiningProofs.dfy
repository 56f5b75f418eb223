/** The invariant of the mining protocol holds in every reachable state. */
module MiningProofs {
  import opened Records
  import opened Blocks
  import opened Integers
  import opened Mining

  lemma {:induction false} SumUpdate(workers: seq<Worker>, f: Worker -> nat, i: nat, w: Worker)
    requires i < |workers|
    ensures Sum(workers[i := w], f) == Sum(workers, f) - f(workers[i]) + f(w)
  {
    if i == 0 {
      assert workers[i := w][1..] == workers[1..];
    } else {
      assert workers[i := w][1..] == workers[1..][i - 1 := w];
      SumUpdate(workers[1..], f, i - 1, w);
    }
  }

  lemma {:induction false} SumZero(workers: seq<Worker>, f: Worker -> nat)
    requires forall i :: 0 <= i < |workers| ==> f(workers[i]) == 0
    ensures Sum(workers, f) == 0
  {
    if workers != [] {
      SumZero(workers[1..], f);
    }
  }

  /** Two nonces of one residue class are at least one stride apart. */
  lemma Stride(m: nat, v: nat, n: nat)
    requires n > 0 && Residue(m, n) == Residue(v, n) && v < m
    ensures v + n <= m
  {
    var d := m / n - v / n;
    assert m == n * (m / n) + m % n && v == n * (v / n) + v % n;
    assert m - v == n * d;
    Multiple(n, d);
  }

  lemma AddStride(v: nat, n: nat)
    requires n > 0
    ensures Residue(v + n, n) == Residue(v, n)
  {
    ModShift(v, n);
  }

  lemma FirstNonce(i: nat, n: nat)
    requires i < n
    ensures Residue(i, n) == i
  {
    Quotient(i, n, 0, i);
  }

  lemma ResidueAtMost(m: nat, n: nat)
    requires n > 0
    ensures Residue(m, n) <= m
  {
    assert m == n * (m / n) + m % n;
    assert n * (m / n) >= 0;
  }

  lemma InitOk(cfg: Config, parent: Option<ContextError>)
    requires cfg.Valid()
    ensures Inv(cfg, Init(cfg, parent))
  {
    hide ComputeHash, MeetsDifficulty, Residue;
    var s := Init(cfg, parent);
    forall i | 0 <= i < cfg.workers ensures WorkerOk(cfg, i, s.workers[i]) {
      FirstNonce(i, cfg.workers);
    }
    forall m: uint64 ensures !Tried(s.workers[Residue(m, cfg.workers)], m) {
      ResidueAtMost(m, cfg.workers);
    }
    SumZero(s.workers, InFlightCount);
    SumZero(s.workers, OverCapCount);
  }

  /** What a worker hashes is the block as passed in, whatever its copy saw of nonce and hash. */
  lemma CopyHashesAlike(cfg: Config, candidate: Block, m: uint64)
    requires SameExceptResult(candidate, cfg.block)
    ensures ComputeHash(cfg.lib, candidate.(nonce := m)) == cfg.HashAt(m)
    ensures candidate.difficulty == cfg.block.difficulty
  {
    assert candidate.(nonce := m).Payload() == cfg.block.(nonce := m).Payload();
  }

  lemma SharedBlockSame(cfg: Config, s: State)
    requires SharedBlockOk(cfg, s)
    ensures SameExceptResult(s.block, cfg.block)
  {}

  // ---------- steps of a worker ----------

  lemma WorkerKept(cfg: Config, s: State, i: nat, m: uint64, h: string)
    requires cfg.Valid() && SameExceptResult(s.block, cfg.block)
    requires i < |s.workers| && !s.workers[i].pc.Exited? && WorkerOk(cfg, i, s.workers[i])
    ensures var s' := StepWorker(cfg, s, i, m, h); i < |s'.workers| && WorkerOk(cfg, i, s'.workers[i])
  {
    hide ComputeHash, MeetsDifficulty, Residue;
    var w := s.workers[i];
    if w.pc.HashCopy? {
      CopyHashesAlike(cfg, w.pc.candidate, w.nonce);
      AddStride(w.nonce, cfg.workers);
    }
  }

  /** A step of a worker changes no other worker. */
  lemma WorkerStepFrame(cfg: Config, s: State, i: nat, m: uint64, h: string)
    requires cfg.Valid() && i < |s.workers| && !s.workers[i].pc.Exited?
    ensures var s' := StepWorker(cfg, s, i, m, h);
            && |s'.workers| == |s.workers|
            && s'.workers == s.workers[i := s'.workers[i]]
            && s'.main == s.main && s'.block == s.block && s'.parent == s.parent && s'.workersDone == s.workersDone
            && (s.cancelled ==> s'.cancelled)
  {
    hide ComputeHash, MeetsDifficulty;
  }

  lemma WorkersKept(cfg: Config, s: State, i: nat, m: uint64, h: string)
    requires cfg.Valid() && Inv(cfg, s)
    requires i < |s.workers| && !s.workers[i].pc.Exited?
    ensures WorkersOk(cfg, StepWorker(cfg, s, i, m, h))
  {
    hide StepWorker, WorkerOk, SharedBlockOk, LogOk, AttemptsOk, CancelOk, StopOk;
    assert WorkerOk(cfg, i, s.workers[i]);
    SharedBlockSame(cfg, s);
    WorkerKept(cfg, s, i, m, h);
    WorkerStepFrame(cfg, s, i, m, h);
  }

  /** A step that neither hashes nor moves on keeps the log. */
  lemma LogFramed(cfg: Config, s: State, s': State, i: nat)
    requires cfg.Valid() && |s.workers| == cfg.workers && LogOk(cfg, s)
    requires i < |s.workers| == |s'.workers| && s'.workers == s.workers[i := s'.workers[i]]
    requires s'.workers[i].nonce == s.workers[i].nonce
    requires Hashed(s'.workers[i].pc) == Hashed(s.workers[i].pc)
    requires OnHit(s.workers[i].pc) ==> OnHit(s'.workers[i].pc)
    requires s'.log == s.log
    ensures LogOk(cfg, s')
  {
    hide ComputeHash, MeetsDifficulty, Residue, Config.Hit;
    forall x: uint64
      ensures Tried(s'.workers[Residue(x, cfg.workers)], x) == Tried(s.workers[Residue(x, cfg.workers)], x)
    {}
  }

  lemma LogKept(cfg: Config, s: State, i: nat, m: uint64, h: string)
    requires cfg.Valid() && Inv(cfg, s)
    requires i < |s.workers| && !s.workers[i].pc.Exited?
    ensures var s' := StepWorker(cfg, s, i, m, h); |s'.workers| == cfg.workers && LogOk(cfg, s')
  {
    hide ComputeHash, MeetsDifficulty, Residue, AttemptsOk, ResultOk, CancelOk, LogOk, Config.LastNonce;
    var w := s.workers[i];
    var s' := StepWorker(cfg, s, i, m, h);
    assert WorkerOk(cfg, i, w);
    if w.pc.HashCopy? {
      CopyHashesAlike(cfg, w.pc.candidate, w.nonce);
      HashKeepsLog(cfg, s, i, s'.workers[i]);
    } else {
      LogFramed(cfg, s, s', i);
    }
  }

  /** The worker hashes its nonce, which was never hashed before, and stops there on a hit. */
  lemma HashKeepsLog(cfg: Config, s: State, i: nat, w': Worker)
    requires cfg.Valid() && Inv(cfg, s)
    requires i < |s.workers| && s.workers[i].pc.HashCopy?
    requires var w := s.workers[i];
             if cfg.Hit(w.nonce) then w'.nonce == w.nonce && OnHit(w'.pc) && Hashed(w'.pc)
             else if w.nonce > MAX_UINT64 - cfg.workers then w' == w.(pc := Exited(NonceOverflow))
             else w' == Worker(w.nonce + cfg.workers, CheckContext)
    ensures LogOk(cfg, s.(log := s.log + [s.workers[i].nonce], workers := s.workers[i := w']))
  {
    hide ComputeHash, MeetsDifficulty, Residue, AttemptsOk, ResultOk, CancelOk;
    var w := s.workers[i];
    var s' := s.(log := s.log + [w.nonce], workers := s.workers[i := w']);
    assert WorkerOk(cfg, i, w);
    assert !Tried(s.workers[Residue(w.nonce, cfg.workers)], w.nonce);
    forall x: uint64
      ensures x in s'.log <==> Tried(s'.workers[Residue(x, cfg.workers)], x)
      ensures x in s'.log && cfg.Hit(x) ==>
              s'.workers[Residue(x, cfg.workers)].nonce == x && OnHit(s'.workers[Residue(x, cfg.workers)].pc)
    {
      assert x in s'.log <==> x in s.log || x == w.nonce;
      assert x in s.log <==> Tried(s.workers[Residue(x, cfg.workers)], x);
      if Residue(x, cfg.workers) == i && x > w.nonce {
        Stride(x, w.nonce, cfg.workers);
      }
    }
  }

  /** A step that keeps the counts of its worker keeps the accounts. */
  lemma AttemptsFramed(cfg: Config, s: State, s': State, i: nat)
    requires cfg.Valid() && |s.workers| == cfg.workers && AttemptsOk(cfg, s)
    requires i < |s.workers| == |s'.workers| && s'.workers == s.workers[i := s'.workers[i]]
    requires InFlightCount(s'.workers[i]) == InFlightCount(s.workers[i])
    requires OverCap(s'.workers[i].pc) == OverCap(s.workers[i].pc)
    requires s'.workers[i].nonce == s.workers[i].nonce && Hashed(s'.workers[i].pc) == Hashed(s.workers[i].pc)
    requires s'.log == s.log && s'.attempts == s.attempts
    requires s.maximumReached ==> s'.maximumReached
    requires s'.maximumReached ==> s.maximumReached || OverCap(s.workers[i].pc)
    requires OverCap(s'.workers[i].pc) && !s'.workers[i].pc.StoreMaximum? ==>
               s'.maximumReached || !s.workers[i].pc.StoreMaximum?
    ensures AttemptsOk(cfg, s')
  {
    hide Sum;
    SumUpdate(s.workers, InFlightCount, i, s'.workers[i]);
    SumUpdate(s.workers, OverCapCount, i, s'.workers[i]);
  }

  lemma AttemptsKept(cfg: Config, s: State, i: nat, m: uint64, h: string)
    requires cfg.Valid() && Inv(cfg, s)
    requires i < |s.workers| && !s.workers[i].pc.Exited?
    ensures var s' := StepWorker(cfg, s, i, m, h); |s'.workers| == cfg.workers && AttemptsOk(cfg, s')
  {
    hide ComputeHash, MeetsDifficulty, WorkerOk, LogOk, ResultOk, CancelOk, AttemptsOk;
    var w := s.workers[i];
    if w.pc.Count? || w.pc.HashCopy? {
      CountKept(cfg, s, i, m, h);
    } else {
      AttemptsFramed(cfg, s, StepWorker(cfg, s, i, m, h), i);
    }
  }

  lemma CountKept(cfg: Config, s: State, i: nat, m: uint64, h: string)
    requires cfg.Valid() && |s.workers| == cfg.workers && AttemptsOk(cfg, s)
    requires i < |s.workers| && (s.workers[i].pc.Count? || s.workers[i].pc.HashCopy?)
    ensures var s' := StepWorker(cfg, s, i, m, h); |s'.workers| == cfg.workers && AttemptsOk(cfg, s')
  {
    hide ComputeHash, MeetsDifficulty, Sum;
    var s' := StepWorker(cfg, s, i, m, h);
    SumUpdate(s.workers, InFlightCount, i, s'.workers[i]);
    SumUpdate(s.workers, OverCapCount, i, s'.workers[i]);
  }

  /** A step that leaves channel, caller and block alone and delivers nothing keeps the results. */
  lemma ResultFramed(cfg: Config, s: State, s': State, i: nat)
    requires cfg.Valid() && ResultOk(cfg, s)
    requires i < |s.workers| && !s.workers[i].pc.Exited?
    requires |s'.workers| == |s.workers| && s'.workers == s.workers[i := s'.workers[i]]
    requires Delivered(s'.workers[i].pc) ==> Delivered(s.workers[i].pc)
    requires s'.block == s.block && s'.channel == s.channel && s'.main == s.main
    requires s'.workersDone == s.workersDone && s'.parent == s.parent
    requires s.attempts <= s'.attempts && (s.maximumReached ==> s'.maximumReached)
    requires forall x :: x in s.log ==> x in s'.log
    ensures ResultOk(cfg, s')
  {
    hide ComputeHash, MeetsDifficulty, Config.Hit, Config.HashAt;
    assert !AllExited(s.workers);
  }

  lemma ResultKept(cfg: Config, s: State, i: nat, m: uint64, h: string)
    requires cfg.Valid() && Inv(cfg, s)
    requires i < |s.workers| && !s.workers[i].pc.Exited?
    ensures ResultOk(cfg, StepWorker(cfg, s, i, m, h))
  {
    hide ComputeHash, MeetsDifficulty, Residue, CancelOk, AttemptsOk, LogOk, WorkersOk, ResultOk;
    if s.workers[i].pc.Send? {
      SendKept(cfg, s, i, m, h);
    } else {
      ResultFramed(cfg, s, StepWorker(cfg, s, i, m, h), i);
    }
  }

  lemma SendKept(cfg: Config, s: State, i: nat, m: uint64, h: string)
    requires cfg.Valid() && Inv(cfg, s)
    requires i < |s.workers| && s.workers[i].pc.Send?
    ensures ResultOk(cfg, StepWorker(cfg, s, i, m, h))
  {
    hide ComputeHash, MeetsDifficulty, Residue, CancelOk, AttemptsOk, Config.Hit, Config.HashAt;
    var w := s.workers[i];
    assert WorkerOk(cfg, i, w);
    assert !AllExited(s.workers);
    assert Tried(s.workers[Residue(w.nonce, cfg.workers)], w.nonce);
  }

  lemma MaximumStored(cfg: Config, s: State, i: nat)
    requires cfg.Valid() && Inv(cfg, s)
    requires i < |s.workers| && s.workers[i].pc.CancelAtMaximum?
    ensures s.maximumReached
  {
    hide ComputeHash, MeetsDifficulty, Residue;
    assert OverCap(s.workers[i].pc);
  }

  lemma DeliveredBy(workers: seq<Worker>, i: nat)
    requires i < |workers| && Delivered(workers[i].pc)
    ensures AnyDelivered(workers)
  {}

  lemma DeliveredStays(cfg: Config, s: State, i: nat, m: uint64, h: string)
    requires cfg.Valid() && i < |s.workers| && !s.workers[i].pc.Exited?
    requires AnyDelivered(s.workers)
    ensures AnyDelivered(StepWorker(cfg, s, i, m, h).workers)
  {
    hide ComputeHash, MeetsDifficulty;
    var j :| 0 <= j < |s.workers| && Delivered(s.workers[j].pc);
    DeliveredBy(StepWorker(cfg, s, i, m, h).workers, j);
  }

  lemma CancelKept(cfg: Config, s: State, i: nat, m: uint64, h: string)
    requires cfg.Valid() && Inv(cfg, s)
    requires i < |s.workers| && !s.workers[i].pc.Exited?
    ensures CancelOk(StepWorker(cfg, s, i, m, h))
  {
    hide ComputeHash, MeetsDifficulty, WorkersOk, LogOk, AttemptsOk, AnyDelivered;
    var w := s.workers[i];
    assert !AllExited(s.workers);
    if AnyDelivered(s.workers) {
      DeliveredStays(cfg, s, i, m, h);
    }
    if w.pc.CancelAtMaximum? {
      MaximumStored(cfg, s, i);
    }
    if w.pc.CancelAfterSend? {
      DeliveredBy(s.workers, i);
      DeliveredStays(cfg, s, i, m, h);
    }
  }

  lemma StopKept(cfg: Config, s: State, i: nat, m: uint64, h: string)
    requires cfg.Valid() && StopOk(s)
    requires i < |s.workers| && !s.workers[i].pc.Exited?
    ensures StopOk(StepWorker(cfg, s, i, m, h))
  {
    hide ComputeHash, MeetsDifficulty;
  }

  // ---------- steps of the other threads ----------

  lemma WorkersFramed(cfg: Config, s: State, s': State)
    requires cfg.Valid() && WorkersOk(cfg, s) && LogOk(cfg, s) && AttemptsOk(cfg, s)
    requires s'.workers == s.workers && s'.log == s.log
    requires s'.attempts == s.attempts && s'.maximumReached == s.maximumReached
    ensures WorkersOk(cfg, s') && LogOk(cfg, s') && AttemptsOk(cfg, s')
  {
    hide ComputeHash, MeetsDifficulty, Residue, WorkerOk, Tried, Sum, OverCap, Config.Hit;
  }

  lemma CancelFramed(cfg: Config, s: State, a: Action)
    requires cfg.Valid() && CancelOk(s) && StopOk(s)
    requires Enabled(s, a) && !a.WorkerStep?
    ensures CancelOk(Apply(cfg, s, a)) && StopOk(Apply(cfg, s, a))
  {}

  lemma OthersKept(cfg: Config, s: State, a: Action)
    requires cfg.Valid() && Inv(cfg, s)
    requires Enabled(s, a) && !a.WorkerStep?
    ensures Inv(cfg, Apply(cfg, s, a))
  {
    hide ComputeHash, WorkersOk, LogOk, AttemptsOk, ResultOk, CancelOk;
    if a.MainStep? {
      if s.main.LoadAttempts? && cfg.workers == 1 {
        LoadReports(cfg, s);
      }
      MainKeepsResult(cfg, s);
    } else {
      OthersKeepResult(cfg, s, a);
    }
    WorkersFramed(cfg, s, Apply(cfg, s, a));
    CancelFramed(cfg, s, a);
  }

  lemma LoadReports(cfg: Config, s: State)
    requires cfg.Valid() && Inv(cfg, s)
    requires cfg.workers == 1 && s.main.LoadAttempts?
    ensures s.attempts == s.main.found.nonce + 1
  {
    hide ComputeHash, MeetsDifficulty, Residue, WorkersOk, AttemptsOk, LogOk, CancelOk;
    SingleWorkerReport(cfg, s, s.main.found);
  }

  lemma OthersKeepResult(cfg: Config, s: State, a: Action)
    requires cfg.Valid() && Inv(cfg, s)
    requires Enabled(s, a) && !a.WorkerStep? && !a.MainStep?
    ensures ResultOk(cfg, Apply(cfg, s, a))
  {
    hide ComputeHash, MeetsDifficulty, Residue, WorkersOk, AttemptsOk, LogOk, CancelOk, StepMain;
    hide Config.Hit, Config.HashAt;
  }

  lemma WritingKeepsResult(cfg: Config, s: State)
    requires ResultOk(cfg, s)
    requires s.main.StoreNonce? || s.main.StoreHash? || s.main.LoadAttempts?
    requires s.main.LoadAttempts? && cfg.workers == 1 ==> s.attempts == s.main.found.nonce + 1
    ensures ResultOk(cfg, StepMain(cfg, s))
  {
    hide Config.Hit, Config.HashAt, AllExited, Delivered;
  }

  lemma EndingKeepsResult(cfg: Config, s: State)
    requires ResultOk(cfg, s)
    requires s.main.Recheck? || s.main.LoadMaximum? || s.main.Returning?
    ensures ResultOk(cfg, StepMain(cfg, s))
  {
    hide Config.Hit, Config.HashAt, AllExited, Delivered;
  }

  lemma MainKeepsResult(cfg: Config, s: State)
    requires cfg.Valid() && Inv(cfg, s)
    requires !s.main.Select? && !s.main.Returned?
    requires s.main.LoadAttempts? && cfg.workers == 1 ==> s.attempts == s.main.found.nonce + 1
    ensures ResultOk(cfg, StepMain(cfg, s))
  {
    hide ResultOk, StepMain, Config.Valid;
    if s.main.StoreNonce? || s.main.StoreHash? || s.main.LoadAttempts? {
      WritingKeepsResult(cfg, s);
    } else {
      EndingKeepsResult(cfg, s);
    }
  }

  /** With one worker, a found nonce ends the search, so the attempts are the nonces up to it. */
  lemma SingleWorkerReport(cfg: Config, s: State, f: Found)
    requires cfg.Valid() && Inv(cfg, s)
    requires cfg.workers == 1 && FoundOk(cfg, s, f)
    ensures s.attempts == f.nonce + 1
  {
    assert Residue(f.nonce, 1) == 0;
    assert s.workers[Residue(f.nonce, cfg.workers)].nonce == f.nonce && OnHit(s.workers[0].pc);
    SumZero(s.workers, InFlightCount);
    SumZero(s.workers, OverCapCount);
  }

  lemma StepKept(cfg: Config, s: State, a: Action)
    requires cfg.Valid() && Inv(cfg, s) && Enabled(s, a)
    ensures Inv(cfg, Apply(cfg, s, a))
  {
    if a.WorkerStep? {
      WorkersKept(cfg, s, a.id, a.seenNonce, a.seenHash);
      LogKept(cfg, s, a.id, a.seenNonce, a.seenHash);
      AttemptsKept(cfg, s, a.id, a.seenNonce, a.seenHash);
      ResultKept(cfg, s, a.id, a.seenNonce, a.seenHash);
      CancelKept(cfg, s, a.id, a.seenNonce, a.seenHash);
      StopKept(cfg, s, a.id, a.seenNonce, a.seenHash);
    } else {
      OthersKept(cfg, s, a);
    }
  }

  lemma {:induction false} RunKept(cfg: Config, s: State, run: seq<Action>)
    requires cfg.Valid() && Inv(cfg, s) && IsRun(cfg, s, run)
    ensures Inv(cfg, Execute(cfg, s, run))
    decreases |run|
  {
    if run != [] {
      StepKept(cfg, s, run[0]);
      RunKept(cfg, Apply(cfg, s, run[0]), run[1..]);
    }
  }

  // ---------- building runs ----------

  lemma EmptyRun(cfg: Config, s: State)
    requires cfg.Valid()
    ensures IsRun(cfg, s, []) && Execute(cfg, s, []) == s
  {}

  lemma {:induction false} RunAppend(cfg: Config, s: State, run: seq<Action>, a: Action)
    requires cfg.Valid() && IsRun(cfg, s, run) && Enabled(Execute(cfg, s, run), a)
    ensures IsRun(cfg, s, run + [a])
    ensures Execute(cfg, s, run + [a]) == Apply(cfg, Execute(cfg, s, run), a)
    decreases |run|
  {
    if run == [] {
      assert run + [a] == [a];
      assert IsRun(cfg, Apply(cfg, s, a), []);
    } else {
      assert (run + [a])[1..] == run[1..] + [a];
      RunAppend(cfg, Apply(cfg, s, run[0]), run[1..], a);
    }
  }

  lemma {:induction false} RunsCompose(cfg: Config, s: State, a: seq<Action>, b: seq<Action>)
    requires cfg.Valid() && IsRun(cfg, s, a) && IsRun(cfg, Execute(cfg, s, a), b)
    ensures IsRun(cfg, s, a + b)
    ensures Execute(cfg, s, a + b) == Execute(cfg, Execute(cfg, s, a), b)
    decreases |a|
  {
    if a == [] {
      assert a + b == b;
    } else {
      assert (a + b)[1..] == a[1..] + b;
      RunsCompose(cfg, Apply(cfg, s, a[0]), a[1..], b);
    }
  }

  lemma {:induction false} RunsSplit(cfg: Config, s: State, a: seq<Action>, b: seq<Action>)
    requires cfg.Valid() && IsRun(cfg, s, a) && IsRun(cfg, s, a + b)
    ensures IsRun(cfg, Execute(cfg, s, a), b)
    ensures Execute(cfg, s, a + b) == Execute(cfg, Execute(cfg, s, a), b)
    decreases |a|
  {
    if a == [] {
      assert a + b == b;
    } else {
      assert (a + b)[1..] == a[1..] + b;
      RunsSplit(cfg, Apply(cfg, s, a[0]), a[1..], b);
    }
  }
}
