/** When a call of `Mine` can succeed, when it must, and when its report is the number of hashes. */
module MiningOutcomes {
  import opened Records
  import opened Blocks
  import opened Integers
  import opened Mining
  import opened MiningProofs
  import opened MiningTheorems

  // ---------- one worker walks to a hit ----------

  /** Worker i may start another pass: its nonce is admitted and the cap leaves room. */
  ghost predicate Ready(cfg: Config, s: State, i: nat)
    requires cfg.Valid()
  {
    && SameExceptResult(s.block, cfg.block)
    && !s.cancelled && s.channel.None? && s.main.Select?
    && i < |s.workers| && s.workers[i].pc.CheckContext?
    && s.workers[i].nonce <= cfg.LastNonce()
    && (cfg.limits.maxAttempts > 0 ==> s.attempts < cfg.limits.maxAttempts)
  }

  /** The worker after it has hashed its nonce. */
  function AfterHash(cfg: Config, w: Worker): Worker
    requires cfg.Valid()
  {
    if cfg.Hit(w.nonce) then Worker(w.nonce, Send(cfg.HashAt(w.nonce)))
    else if w.nonce > MAX_UINT64 - cfg.workers then Worker(w.nonce, Exited(NonceOverflow))
    else Worker(w.nonce + cfg.workers, CheckContext)
  }

  function AfterPass(cfg: Config, s: State, i: nat): State
    requires cfg.Valid() && i < |s.workers|
  {
    s.(attempts := s.attempts + 1,
       log := s.log + [s.workers[i].nonce],
       workers := s.workers[i := AfterHash(cfg, s.workers[i])])
  }

  /** Checking the context, counting, copying and hashing, with no other thread in between. */
  function Pass(i: nat): seq<Action> {
    var step := WorkerStep(i, 0, "");
    [step] + [step] + [step] + [step]
  }

  lemma PassRuns(cfg: Config, s: State, i: nat)
    requires cfg.Valid() && Ready(cfg, s, i)
    ensures IsRun(cfg, s, Pass(i)) && Execute(cfg, s, Pass(i)) == AfterPass(cfg, s, i)
  {
    hide IsRun, Execute, ComputeHash, MeetsDifficulty, Config.HashAt, Config.Hit;
    var step, w := WorkerStep(i, 0, ""), s.workers[i];
    var candidate := s.block.(nonce := 0, hash := "");
    var run := [];
    assert IsRun(cfg, s, run) && Execute(cfg, s, run) == s by { EmptyRun(cfg, s); }
    RunAppend(cfg, s, run, step);
    run := run + [step];
    assert Execute(cfg, s, run) == s.(workers := s.workers[i := w.(pc := Count)]);
    RunAppend(cfg, s, run, step);
    run := run + [step];
    assert Execute(cfg, s, run) == s.(attempts := s.attempts + 1, workers := s.workers[i := w.(pc := Copy)]);
    RunAppend(cfg, s, run, step);
    run := run + [step];
    assert Execute(cfg, s, run)
           == s.(attempts := s.attempts + 1, workers := s.workers[i := w.(pc := HashCopy(candidate))]);
    RunAppend(cfg, s, run, step);
    run := run + [step];
    HashStep(cfg, s, i, candidate);
    assert run == Pass(i);
  }

  lemma HashStep(cfg: Config, s: State, i: nat, candidate: Block)
    requires cfg.Valid() && i < |s.workers| && SameExceptResult(candidate, cfg.block)
    ensures var before := s.(attempts := s.attempts + 1,
                             workers := s.workers[i := s.workers[i].(pc := HashCopy(candidate))]);
            StepWorker(cfg, before, i, 0, "") == AfterPass(cfg, s, i)
  {
    hide ComputeHash, MeetsDifficulty;
    CopyHashesAlike(cfg, candidate, s.workers[i].nonce);
  }

  lemma NextRound(v: nat, n: nat)
    requires n > 0
    ensures (v + n) / n == v / n + 1
  {
    assert v == n * (v / n) + v % n;
    Quotient(v + n, n, v / n + 1, v % n);
  }

  lemma RoundsGrow(v: nat, m: nat, n: nat)
    requires n > 0 && v <= m
    ensures v / n <= m / n
  {
    assert v == n * (v / n) + v % n && m == n * (m / n) + m % n;
    Multiple(n, v / n - m / n);
  }

  /** The state in which only worker i has moved on, from its nonce to a hit, and is about to send it. */
  ghost predicate Reached(cfg: Config, s: State, i: nat, hit: uint64, t: State)
    requires cfg.Valid() && i < |s.workers|
  {
    && t == s.(attempts := t.attempts, log := t.log,
               workers := s.workers[i := Worker(hit, Send(cfg.HashAt(hit)))])
    && t.attempts == hit / cfg.workers + 1
    && |t.log| - |s.log| == t.attempts - s.attempts
  }

  /** A hit that some schedule can deliver: the first of its stripe, admitted by both limits. */
  ghost predicate Deliverable(cfg: Config, m: uint64)
    requires cfg.Valid()
  {
    && m <= cfg.LastNonce()
    && (cfg.limits.maxAttempts > 0 ==> m / cfg.workers < cfg.limits.maxAttempts)
    && cfg.Hit(m)
    && forall k: uint64 :: k < m && Residue(k, cfg.workers) == Residue(m, cfg.workers) ==> !cfg.Hit(k)
  }

  lemma {:induction false} WalkRuns(cfg: Config, s: State, i: nat, hit: uint64) returns (run: seq<Action>)
    requires cfg.Valid() && Deliverable(cfg, hit) && Ready(cfg, s, i)
    requires s.workers[i].nonce <= hit && s.attempts == s.workers[i].nonce / cfg.workers
    requires Residue(s.workers[i].nonce, cfg.workers) == Residue(hit, cfg.workers)
    ensures IsRun(cfg, s, run) && Reached(cfg, s, i, hit, Execute(cfg, s, run))
    decreases hit - s.workers[i].nonce
  {
    hide IsRun, Execute, ComputeHash, MeetsDifficulty, Residue, Config.Hit, Config.HashAt;
    var v, n := s.workers[i].nonce, cfg.workers;
    PassRuns(cfg, s, i);
    run := Pass(i);
    if v < hit {
      Stride(hit, v, n);
      AddStride(v, n);
      NextRound(v, n);
      RoundsGrow(v + n, hit, n);
      var t := AfterPass(cfg, s, i);
      var rest := WalkRuns(cfg, t, i, hit);
      RunsCompose(cfg, s, run, rest);
      run := run + rest;
      assert t.workers[i := Worker(hit, Send(cfg.HashAt(hit)))] == s.workers[i := Worker(hit, Send(cfg.HashAt(hit)))];
    }
  }

  /** A waiting result is sent, received and returned with the count at that moment. */
  lemma DeliverRuns(cfg: Config, s: State, before: seq<Action>, i: nat) returns (run: seq<Action>)
    requires cfg.Valid() && IsRun(cfg, s, before)
    requires var t := Execute(cfg, s, before);
             && i < |t.workers| && t.workers[i].pc.Send? && t.channel.None? && t.main.Select?
    ensures IsRun(cfg, s, run)
    ensures var t, final := Execute(cfg, s, before), Execute(cfg, s, run);
            && final.log == t.log && final.parent == t.parent
            && final.main == Returned(Success(t.workers[i].nonce, t.workers[i].pc.hash, t.attempts,
                                              t.block.difficulty, cfg.workers))
  {
    hide IsRun, Execute, ComputeHash, MeetsDifficulty;
    run := before;
    RunAppend(cfg, s, run, WorkerStep(i, 0, ""));
    run := run + [WorkerStep(i, 0, "")];
    RunAppend(cfg, s, run, Receive);
    run := run + [Receive];
    hide StepWorker;
    RunAppend(cfg, s, run, MainStep);
    run := run + [MainStep];
    RunAppend(cfg, s, run, MainStep);
    run := run + [MainStep];
    RunAppend(cfg, s, run, MainStep);
    run := run + [MainStep];
    RunAppend(cfg, s, run, MainStep);
    run := run + [MainStep];
  }

  lemma FirstRound(m: nat, n: nat)
    requires n > 0
    ensures Residue(m, n) <= m && Residue(m, n) / n == 0
    ensures Residue(Residue(m, n), n) == Residue(m, n)
  {
    ResidueAtMost(m, n);
    Quotient(Residue(m, n), n, 0, Residue(m, n));
  }

  /** Every deliverable hit is found by some schedule under an open parent, with an exact report. */
  lemma SuccessRun(cfg: Config, m: uint64) returns (run: seq<Action>)
    requires cfg.Valid() && Deliverable(cfg, m)
    ensures IsCompleteRun(cfg, None, run)
    ensures var final := Execute(cfg, Init(cfg, None), run);
            && final.parent.None?
            && final.main.outcome.Success? && final.main.outcome.nonce == m
            && final.main.outcome.attempts == |final.log|
  {
    hide IsRun, Execute, Residue, Config.Hit, Config.HashAt;
    var s, i := Init(cfg, None), Residue(m, cfg.workers);
    FirstRound(m, cfg.workers);
    run := WalkRuns(cfg, s, i, m);
    run := DeliverRuns(cfg, s, run, i);
  }

  // ---------- the reported count ----------

  /** One worker is about to send a hit while another has counted its attempt and not hashed yet. */
  ghost predicate CountedAhead(cfg: Config, s: State, hit: uint64, i: nat, j: nat)
    requires cfg.Valid()
  {
    && i < |s.workers| && j < |s.workers| && i != j
    && s.workers[i] == Worker(hit, Send(cfg.HashAt(hit)))
    && s.channel.None? && s.main.Select? && s.parent.None?
    && s.attempts == |s.log| + 1 == hit / cfg.workers + 2
    && s.workers[j].pc == (if 0 < cfg.limits.maxAttempts < s.attempts then StoreMaximum else Copy)
  }

  lemma CountAhead(cfg: Config, m: uint64) returns (run: seq<Action>, i: nat, j: nat)
    requires cfg.Valid() && cfg.workers > 1 && Deliverable(cfg, m)
    ensures IsRun(cfg, Init(cfg, None), run)
    ensures CountedAhead(cfg, Execute(cfg, Init(cfg, None), run), m, i, j)
  {
    hide IsRun, Execute, Residue, ComputeHash, MeetsDifficulty, StepWorker, Config.Hit, Config.HashAt;
    var s := Init(cfg, None);
    i := Residue(m, cfg.workers);
    j := if i == 0 then 1 else 0;
    var step := WorkerStep(j, 0, "");
    CheckedContext(cfg, j);
    FirstRound(m, cfg.workers);
    var walk := WalkRuns(cfg, Execute(cfg, s, [step]), i, m);
    RunsCompose(cfg, s, [step], walk);
    run := [step] + walk;
    CountsEarly(cfg, Execute(cfg, s, run), j);
    RunAppend(cfg, s, run, step);
    run := run + [step];
  }

  /** With several workers, a deliverable hit has a schedule that succeeds and reports one attempt more
    than the hashes made: another worker has counted its attempt and not hashed yet. */
  lemma ReportExceeds(cfg: Config, m: uint64) returns (run: seq<Action>)
    requires cfg.Valid() && cfg.workers > 1 && Deliverable(cfg, m)
    ensures IsCompleteRun(cfg, None, run)
    ensures var final := Execute(cfg, Init(cfg, None), run);
            && final.parent.None?
            && final.main.outcome.Success? && final.main.outcome.nonce == m
            && final.main.outcome.attempts == |final.log| + 1
  {
    hide IsRun, Execute, Init, Config.HashAt, Deliverable;
    var before, i, j := CountAhead(cfg, m);
    run := DeliverRuns(cfg, Init(cfg, None), before, i);
  }

  lemma CheckedContext(cfg: Config, j: nat)
    requires cfg.Valid() && j < cfg.workers
    ensures var s, run := Init(cfg, None), [WorkerStep(j, 0, "")];
            IsRun(cfg, s, run) && Execute(cfg, s, run) == s.(workers := s.workers[j := Worker(j, Count)])
  {
    hide IsRun, Execute, ComputeHash, MeetsDifficulty;
    var s, step := Init(cfg, None), WorkerStep(j, 0, "");
    EmptyRun(cfg, s);
    RunAppend(cfg, s, [], step);
    assert [] + [step] == [step];
  }

  lemma CountsEarly(cfg: Config, s: State, j: nat)
    requires cfg.Valid() && j < |s.workers|
    requires s.workers[j].pc.Count? && s.workers[j].nonce <= cfg.LastNonce()
    ensures var t := StepWorker(cfg, s, j, 0, "");
            && |t.workers| == |s.workers|
            && t == s.(attempts := s.attempts + 1, workers := s.workers[j := t.workers[j]])
            && t.workers[j].pc == (if 0 < cfg.limits.maxAttempts < t.attempts then StoreMaximum else Copy)
  {
    hide ComputeHash, MeetsDifficulty;
  }

  predicate Succeeds(cfg: Config, parent: Option<ContextError>, run: seq<Action>)
    requires cfg.Valid()
  {
    IsCompleteRun(cfg, parent, run) && Execute(cfg, Init(cfg, parent), run).main.outcome.Success?
  }

  ghost predicate CanSucceed(cfg: Config)
    requires cfg.Valid()
  {
    exists parent, run :: Succeeds(cfg, parent, run)
  }

  ghost predicate ReportsExactly(cfg: Config)
    requires cfg.Valid()
  {
    forall parent, run :: Succeeds(cfg, parent, run) ==>
      var final := Execute(cfg, Init(cfg, parent), run);
      final.main.outcome.attempts == |final.log|
  }

  lemma {:induction false} StripeInside(hashed: set<uint64>, v: uint64, n: nat)
    requires n > 0
    requires forall k: uint64 :: k <= v && Residue(k, n) == Residue(v, n) ==> k in hashed
    ensures |hashed| >= v / n + 1
    decreases v
  {
    if v >= n {
      AddStride(v - n, n);
      NextRound(v - n, n);
      StripeInside(hashed - {v}, v - n, n);
    } else {
      Quotient(v, n, 0, v);
      assert {v} <= hashed;
      CardinalityOfSubset({v}, hashed);
    }
  }

  lemma CardinalityOfSubset(a: set<uint64>, b: set<uint64>)
    requires a <= b
    ensures |a| <= |b|
    ensures a != b ==> |a| < |b|
  {
    assert b == a + (b - a);
    if a != b {
      var x :| x in b - a;
    }
  }

  function Elements(log: seq<uint64>): (elements: set<uint64>)
    ensures forall m: uint64 :: m in elements <==> m in log
  {
    set m | m in log
  }

  lemma {:induction false} DistinctElements(log: seq<uint64>)
    ensures |Elements(log)| <= |log|
    ensures (forall i, j :: 0 <= i < j < |log| ==> log[i] != log[j]) ==> |Elements(log)| == |log|
  {
    if log != [] {
      var n := |log| - 1;
      DistinctElements(log[..n]);
      assert Elements(log) == Elements(log[..n]) + {log[n]};
    }
  }

  /** A hashed hit is deliverable: its stripe was hashed up to it within the cap. */
  lemma HashedHitIsDeliverable(cfg: Config, s: State, m: uint64)
    requires cfg.Valid() && Inv(cfg, s) && m in s.log && cfg.Hit(m)
    requires cfg.limits.maxAttempts > 0 ==> |s.log| <= cfg.limits.maxAttempts
    ensures Deliverable(cfg, m)
    ensures |s.log| >= m / cfg.workers + 1
  {
    hide ComputeHash, MeetsDifficulty, Residue, Config.Hit, AttemptsOk, ResultOk, CancelOk;
    LeastInStripe(cfg, s, m);
    StripeInside(Elements(s.log), m, cfg.workers);
    DistinctElements(s.log);
  }

  /** A success has delivered a deliverable hit. */
  lemma SuccessIsDeliverable(cfg: Config, parent: Option<ContextError>, run: seq<Action>)
    requires cfg.Valid() && IsCompleteRun(cfg, parent, run)
    requires Execute(cfg, Init(cfg, parent), run).main.outcome.Success?
    ensures Deliverable(cfg, Execute(cfg, Init(cfg, parent), run).main.outcome.nonce)
  {
    hide IsRun, Execute, ComputeHash, MeetsDifficulty, Residue, Sum, Deliverable;
    var s := Execute(cfg, Init(cfg, parent), run);
    var m := s.main.outcome.nonce;
    ReachableOk(cfg, parent, run);
    AttemptsAreExact(cfg, parent, run);
    assert FoundOk(cfg, s, Found(m, s.main.outcome.hash));
    HashedHitIsDeliverable(cfg, s, m);
  }

  /** Some schedule succeeds, exactly if a hit lies within both limits. */
  lemma CanSucceedExactly(cfg: Config)
    requires cfg.Valid()
    ensures CanSucceed(cfg) <==> exists m: uint64 :: Deliverable(cfg, m)
  {
    hide Execute, IsRun, Deliverable, Init;
    if CanSucceed(cfg) {
      var parent, run :| Succeeds(cfg, parent, run);
      SuccessIsDeliverable(cfg, parent, run);
    }
    if m: uint64 :| Deliverable(cfg, m) {
      var run := SuccessRun(cfg, m);
      assert Succeeds(cfg, None, run);
    }
  }

  /** Every success reports exactly the hashes made, if and only if there is one worker or no schedule
    succeeds at all. */
  lemma ReportsExactlyWhen(cfg: Config)
    requires cfg.Valid()
    ensures ReportsExactly(cfg) <==> cfg.workers == 1 || !CanSucceed(cfg)
  {
    hide Execute, IsRun, Deliverable, Init;
    if cfg.workers == 1 {
      forall parent, run | Succeeds(cfg, parent, run)
        ensures var final := Execute(cfg, Init(cfg, parent), run); final.main.outcome.attempts == |final.log|
      {
        SingleWorkerFindsLeast(cfg, parent, run);
      }
    } else if CanSucceed(cfg) {
      CanSucceedExactly(cfg);
      var m: uint64 :| Deliverable(cfg, m);
      var run := ReportExceeds(cfg, m);
      assert Succeeds(cfg, None, run);
    }
  }

  // ---------- when a call must succeed ----------

  /** No hit lies at or below m in its stripe, so m may be hashed without any hit being found. */
  ghost predicate Blank(cfg: Config, m: uint64)
    requires cfg.Valid()
  {
    forall k: uint64 :: k <= m && Residue(k, cfg.workers) == Residue(m, cfg.workers) ==> !cfg.Hit(k)
  }

  /** All nonces a call may hash in vain. */
  ghost function Blanks(cfg: Config): set<uint64>
    requires cfg.Valid()
  {
    set m: uint64 | m <= cfg.LastNonce() && Blank(cfg, m)
  }

  ghost predicate NoHitHashed(cfg: Config, s: State) {
    forall m: uint64 :: m in s.log ==> !cfg.Hit(m)
  }

  /** As long as no hit was hashed, all hashed nonces are blanks. */
  lemma HashedAreBlanks(cfg: Config, s: State)
    requires cfg.Valid() && Inv(cfg, s) && NoHitHashed(cfg, s)
    ensures Elements(s.log) <= Blanks(cfg)
    ensures |s.log| == |Elements(s.log)| <= |Blanks(cfg)|
  {
    hide ComputeHash, MeetsDifficulty, Residue, AttemptsOk, ResultOk, CancelOk, WorkerOk, Config.Hit;
    forall m: uint64 | m in s.log ensures m in Blanks(cfg) {
      forall k: uint64 | k <= m && Residue(k, cfg.workers) == Residue(m, cfg.workers) ensures !cfg.Hit(k) {
        assert Tried(s.workers[Residue(m, cfg.workers)], m);
        assert k < m ==> Tried(s.workers[Residue(k, cfg.workers)], k);
      }
    }
    DistinctElements(s.log);
    CardinalityOfSubset(Elements(s.log), Blanks(cfg));
  }

  ghost predicate HasHit(cfg: Config)
    requires cfg.Valid()
  {
    exists m: uint64 :: m <= cfg.LastNonce() && cfg.Hit(m)
  }

  /** With more attempts than blanks the call cannot miss a hit. */
  lemma EnoughAttempts(cfg: Config, parent: Option<ContextError>, run: seq<Action>)
    requires cfg.Valid() && IsCompleteRun(cfg, parent, run)
    requires Execute(cfg, Init(cfg, parent), run).parent.None?
    requires HasHit(cfg) && (cfg.limits.maxAttempts > 0 ==> |Blanks(cfg)| < cfg.limits.maxAttempts)
    ensures Execute(cfg, Init(cfg, parent), run).main.outcome.Success?
  {
    hide ComputeHash, MeetsDifficulty, Residue, IsRun, Execute, Blanks;
    var s := Execute(cfg, Init(cfg, parent), run);
    ReachableOk(cfg, parent, run);
    match s.main.outcome
    case Success(_, _, _, _, _) =>
    case MaxNonce => MaxNonceMeansComplete(cfg, parent, run);
    case MaxAttempts =>
      MaxAttemptsIsExact(cfg, parent, run);
      HashedAreBlanks(cfg, s);
    case MiningTimeout =>
    case MiningCancelled =>
  }

  /** Between two passes of any workers: k blanks were hashed and nothing else has happened. */
  ghost predicate Quiet(cfg: Config, s: State, k: nat)
    requires cfg.Valid()
  {
    && s.block == cfg.block && !s.cancelled && s.channel.None? && s.main.Select? && s.parent.None?
    && s.attempts == k == |s.log|
    && |s.workers| == cfg.workers
    && (forall i :: 0 <= i < |s.workers| ==> s.workers[i].pc in {CheckContext, Exited(NonceOverflow)})
    && NoHitHashed(cfg, s)
  }

  /** While fewer nonces were hashed than there are blanks, some worker stands on a blank. */
  lemma BlankAhead(cfg: Config, s: State, k: nat) returns (i: nat)
    requires cfg.Valid() && Inv(cfg, s) && Quiet(cfg, s, k) && k < |Blanks(cfg)|
    ensures i < |s.workers| && s.workers[i].pc.CheckContext?
    ensures s.workers[i].nonce <= cfg.LastNonce() && !cfg.Hit(s.workers[i].nonce)
  {
    hide ComputeHash, MeetsDifficulty, Residue, Config.Hit, AttemptsOk, ResultOk, CancelOk, StopOk;
    HashedAreBlanks(cfg, s);
    assert Elements(s.log) != Blanks(cfg);
    var m: uint64 :| m in Blanks(cfg) && m !in Elements(s.log);
    i := Residue(m, cfg.workers);
    assert WorkerOk(cfg, i, s.workers[i]);
    assert !Tried(s.workers[i], m);
    if !s.workers[i].pc.CheckContext? {
      StripeDone(cfg, s, m);
    }
  }

  lemma {:induction false} HashBlanks(cfg: Config, k: nat) returns (run: seq<Action>)
    requires cfg.Valid() && k <= cfg.limits.maxAttempts && k <= |Blanks(cfg)|
    ensures IsRun(cfg, Init(cfg, None), run)
    ensures Quiet(cfg, Execute(cfg, Init(cfg, None), run), k)
  {
    hide IsRun, Execute, Blanks, ComputeHash, MeetsDifficulty, Config.Hit, Config.HashAt;
    var s := Init(cfg, None);
    if k == 0 {
      run := [];
      EmptyRun(cfg, s);
    } else {
      run := HashBlanks(cfg, k - 1);
      ReachableOk(cfg, None, run);
      var t := Execute(cfg, s, run);
      var i := BlankAhead(cfg, t, k - 1);
      PassRuns(cfg, t, i);
      RunsCompose(cfg, s, run, Pass(i));
      run := run + Pass(i);
    }
  }

  lemma {:induction false} LogGrows(cfg: Config, s: State, run: seq<Action>)
    requires cfg.Valid() && IsRun(cfg, s, run)
    ensures s.log <= Execute(cfg, s, run).log
    decreases |run|
  {
    if run != [] {
      hide ComputeHash, MeetsDifficulty;
      assert s.log <= Apply(cfg, s, run[0]).log;
      LogGrows(cfg, Apply(cfg, s, run[0]), run[1..]);
    }
  }

  /** With at most as many attempts as blanks, some schedule spends them all on blanks. */
  lemma TooFewAttempts(cfg: Config) returns (run: seq<Action>)
    requires cfg.Valid() && 0 < cfg.limits.maxAttempts <= |Blanks(cfg)|
    ensures IsCompleteRun(cfg, None, run)
    ensures var final := Execute(cfg, Init(cfg, None), run);
            && final.parent.None? && !final.main.outcome.Success?
            && |final.log| == cfg.limits.maxAttempts && NoHitHashed(cfg, final)
  {
    hide IsRun, Execute, Blanks, ComputeHash, MeetsDifficulty, Config.Hit, Config.HashAt, Sum;
    var s := Init(cfg, None);
    run := HashBlanks(cfg, cfg.limits.maxAttempts);
    var t := Execute(cfg, s, run);
    var rest := EveryRunCanComplete(cfg, None, run);
    RunsSplit(cfg, s, run, rest);
    LogGrows(cfg, t, rest);
    run := run + rest;
    AttemptsAreExact(cfg, None, run);
    ReachableOk(cfg, None, run);
    var final := Execute(cfg, s, run);
    assert final.log == t.log;
  }

  /** Under a parent that stays open, every schedule succeeds. */
  ghost predicate AlwaysSucceeds(cfg: Config)
    requires cfg.Valid()
  {
    forall run :: IsCompleteRun(cfg, None, run) && Execute(cfg, Init(cfg, None), run).parent.None? ==>
      Execute(cfg, Init(cfg, None), run).main.outcome.Success?
  }

  /** A call must succeed exactly if there is a hit within the nonce cap and the attempt cap exceeds the
    number of blanks. */
  lemma AlwaysSucceedsWhen(cfg: Config)
    requires cfg.Valid()
    ensures AlwaysSucceeds(cfg) <==>
            HasHit(cfg) && (cfg.limits.maxAttempts > 0 ==> |Blanks(cfg)| < cfg.limits.maxAttempts)
  {
    hide IsRun, Execute, Blanks, HasHit, Init;
    var cap := cfg.limits.maxAttempts;
    if HasHit(cfg) && (cap > 0 ==> |Blanks(cfg)| < cap) {
      forall run | IsCompleteRun(cfg, None, run) && Execute(cfg, Init(cfg, None), run).parent.None?
        ensures Execute(cfg, Init(cfg, None), run).main.outcome.Success?
      {
        EnoughAttempts(cfg, None, run);
      }
    } else if cap > 0 && |Blanks(cfg)| >= cap {
      var run := TooFewAttempts(cfg);
    } else {
      var run := OpenRun(cfg);
      if Execute(cfg, Init(cfg, None), run).main.outcome.Success? {
        SuccessHasHit(cfg, None, run);
      }
    }
  }

  lemma OpenRun(cfg: Config) returns (run: seq<Action>)
    requires cfg.Valid()
    ensures IsCompleteRun(cfg, None, run) && Execute(cfg, Init(cfg, None), run).parent.None?
  {
    hide IsRun, Execute;
    EmptyRun(cfg, Init(cfg, None));
    var rest := EveryRunCanComplete(cfg, None, []);
    run := rest;
    assert [] + rest == rest;
  }

  lemma SuccessHasHit(cfg: Config, parent: Option<ContextError>, run: seq<Action>)
    requires cfg.Valid() && Succeeds(cfg, parent, run)
    ensures HasHit(cfg)
  {
    hide IsRun, Execute, Init, Config.Hit;
    SuccessIsDeliverable(cfg, parent, run);
  }

  /** When the attempt cap cannot bind and the parent stays open, each schedule succeeds exactly when
    some admitted nonce is a hit. */
  lemma SucceedsExactlyWhenPossible(cfg: Config, parent: Option<ContextError>, run: seq<Action>)
    requires cfg.Valid() && IsCompleteRun(cfg, parent, run)
    requires Execute(cfg, Init(cfg, parent), run).parent.None?
    requires cfg.limits.maxAttempts > 0 ==> cfg.limits.maxAttempts > cfg.LastNonce()
    ensures Execute(cfg, Init(cfg, parent), run).main.outcome.Success? <==> HasHit(cfg)
  {
    hide IsRun, Execute, Init;
    if HasHit(cfg) {
      FewBlanks(cfg);
      EnoughAttempts(cfg, parent, run);
    }
    if Execute(cfg, Init(cfg, parent), run).main.outcome.Success? {
      SuccessHasHit(cfg, parent, run);
    }
  }

  function NoncesUpTo(last: uint64): (nonces: set<uint64>)
    ensures forall m: uint64 :: m in nonces <==> m <= last
    ensures |nonces| == last + 1
  {
    if last == 0 then {0} else NoncesUpTo(last - 1) + {last}
  }

  lemma FewBlanks(cfg: Config)
    requires cfg.Valid() && HasHit(cfg)
    ensures |Blanks(cfg)| <= cfg.LastNonce()
  {
    hide Config.Hit;
    var m: uint64 :| m <= cfg.LastNonce() && cfg.Hit(m);
    assert m !in Blanks(cfg);
    CardinalityOfSubset(Blanks(cfg), NoncesUpTo(cfg.LastNonce()));
  }

  /** One worker succeeds under an open parent exactly when a hit lies within both limits, whatever the
    schedule; this decides when genesis can be mined. */
  lemma OneWorkerSucceedsWhen(cfg: Config, parent: Option<ContextError>, run: seq<Action>)
    requires cfg.Valid() && cfg.workers == 1 && IsCompleteRun(cfg, parent, run)
    requires Execute(cfg, Init(cfg, parent), run).parent.None?
    ensures Execute(cfg, Init(cfg, parent), run).main.outcome.Success? <==>
            exists m: uint64 ::
              m <= cfg.LastNonce() && (cfg.limits.maxAttempts > 0 ==> m < cfg.limits.maxAttempts) && cfg.Hit(m)
  {
    hide IsRun, Execute, ComputeHash, MeetsDifficulty, Sum;
    var s, cap := Execute(cfg, Init(cfg, parent), run), cfg.limits.maxAttempts;
    ReachableOk(cfg, parent, run);
    match s.main.outcome
    case Success(m, _, _, _, _) => SuccessIsDeliverable(cfg, parent, run);
    case MaxNonce => MaxNonceMeansComplete(cfg, parent, run);
    case MaxAttempts =>
      MaxAttemptsIsExact(cfg, parent, run);
      forall m: uint64 | m < cap ensures m in s.log {
        assert Residue(m, 1) == 0;
        assert Tried(s.workers[Residue(m, cfg.workers)], m);
      }
    case MiningTimeout =>
    case MiningCancelled =>
  }
}
