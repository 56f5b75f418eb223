/** When a worker may copy the shared block while the caller writes to it (block/block.go). */
module MiningRaces {
  import opened Records
  import opened Blocks
  import opened Mining
  import opened MiningProofs
  import opened MiningTheorems
  import opened MiningOutcomes

  /** The caller is about to write to the block and some worker to read all of it; nothing orders the two. */
  ghost predicate Racing(s: State) {
    && (s.main.StoreNonce? || s.main.StoreHash?)
    && exists j :: 0 <= j < |s.workers| && s.workers[j].pc.Copy?
  }

  ghost predicate CanRace(cfg: Config)
    requires cfg.Valid()
  {
    exists parent, run :: RacesAfter(cfg, parent, run)
  }

  ghost predicate RacesAfter(cfg: Config, parent: Option<ContextError>, run: seq<Action>)
    requires cfg.Valid()
  {
    IsRun(cfg, Init(cfg, parent), run) && Racing(Execute(cfg, Init(cfg, parent), run))
  }

  /** A deliverable hit that leaves room for one more attempt. */
  ghost predicate LeavesRoom(cfg: Config, m: uint64)
    requires cfg.Valid()
  {
    Deliverable(cfg, m) && (cfg.limits.maxAttempts > 0 ==> m / cfg.workers + 1 < cfg.limits.maxAttempts)
  }

  /** Another worker counts an attempt before the hit is sent, and stands at its copy while the caller,
    which has received the hit, starts to write. */
  lemma RaceRun(cfg: Config, m: uint64) returns (run: seq<Action>)
    requires cfg.Valid() && cfg.workers > 1 && LeavesRoom(cfg, m)
    ensures RacesAfter(cfg, None, run)
  {
    hide IsRun, Execute, Init, ComputeHash, MeetsDifficulty, Config.HashAt, Deliverable;
    var s := Init(cfg, None);
    var i, j;
    run, i, j := CountAhead(cfg, m);
    RunAppend(cfg, s, run, WorkerStep(i, 0, ""));
    run := run + [WorkerStep(i, 0, "")];
    RunAppend(cfg, s, run, Receive);
    run := run + [Receive];
    assert Execute(cfg, s, run).workers[j].pc.Copy?;
  }

  lemma {:induction false} SumAtLeast(workers: seq<Worker>, f: Worker -> nat, j: nat)
    requires j < |workers|
    ensures f(workers[j]) <= Sum(workers, f)
  {
    if j > 0 {
      SumAtLeast(workers[1..], f, j - 1);
    }
  }

  /** A race needs a second worker, and an attempt beyond those that led to the hit. */
  lemma RaceLeavesRoom(cfg: Config, s: State) returns (m: uint64)
    requires cfg.Valid() && Inv(cfg, s) && Racing(s)
    ensures cfg.workers > 1 && LeavesRoom(cfg, m)
  {
    hide ComputeHash, MeetsDifficulty, Residue, Sum, Config.Hit, Config.HashAt, CancelOk, StopOk, Deliverable;
    var j :| 0 <= j < |s.workers| && s.workers[j].pc.Copy?;
    m := s.main.found.nonce;
    assert FoundOk(cfg, s, s.main.found);
    assert OnHit(s.workers[Residue(m, cfg.workers)].pc);
    SumAtLeast(s.workers, InFlightCount, j);
    HashedHitIsDeliverable(cfg, s, m);
  }

  /** Copying the block can race with the caller's writes if and only if there are several workers and
    the attempt cap leaves room for one more attempt than some deliverable hit needs. What the worker
    then hashes is still right, since it overwrites what the race can disturb. */
  lemma RacesExactlyWhen(cfg: Config)
    requires cfg.Valid()
    ensures CanRace(cfg) <==> cfg.workers > 1 && exists m: uint64 :: LeavesRoom(cfg, m)
  {
    hide Execute, IsRun, Init, LeavesRoom, Racing;
    if CanRace(cfg) {
      var parent, run :| RacesAfter(cfg, parent, run);
      ReachableOk(cfg, parent, run);
      var m := RaceLeavesRoom(cfg, Execute(cfg, Init(cfg, parent), run));
    }
    if cfg.workers > 1 {
      if m: uint64 :| LeavesRoom(cfg, m) {
        var run := RaceRun(cfg, m);
      }
    }
  }

  /** One worker never races, so mining genesis does not. */
  lemma OneWorkerNeverRaces(cfg: Config, parent: Option<ContextError>, run: seq<Action>)
    requires cfg.Valid() && cfg.workers == 1 && IsRun(cfg, Init(cfg, parent), run)
    ensures !Racing(Execute(cfg, Init(cfg, parent), run))
  {
    hide Execute, IsRun, Init, Racing;
    ReachableOk(cfg, parent, run);
    if Racing(Execute(cfg, Init(cfg, parent), run)) {
      var m := RaceLeavesRoom(cfg, Execute(cfg, Init(cfg, parent), run));
    }
  }
}
