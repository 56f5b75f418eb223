/** Concurrent bounded mining: `Block.Mine` and `NewGenesisBlock` (block/block.go).

  One call of Mine is a transition system. Its threads are the workers, the goroutine that
  closes `workersDone`, the caller (`main`), and the environment, which may end the parent
  context. Each shared access is a step of its own; an `Action` names the thread that moves
  and resolves its nondeterminism, and a run is any sequence of enabled actions. */
module Mining {
  import opened Records
  import opened Blocks

  datatype Limits = Limits(maxAttempts: uint64, maxNonce: uint64, workers: int64)

  /** The arguments of one call. `block` is the block as passed in; `workers` is the resolved count. */
  datatype Config = Config(lib: Library, block: Block, limits: Limits, workers: nat)
  {
    predicate Valid() {
      0 < workers <= MAX_INT64 && 0 <= block.difficulty <= 64
    }

    function HashAt(m: uint64): string {
      ComputeHash(lib, block.(nonce := m))
    }

    predicate Hit(m: uint64) {
      MeetsDifficulty(HashAt(m), block.difficulty)
    }

    /** The greatest nonce the limits admit. */
    function LastNonce(): uint64 {
      if limits.maxNonce > 0 then limits.maxNonce else MAX_UINT64
    }
  }

  /** The worker count of a call; `cpus` stands for runtime.NumCPU(). */
  function ResolveWorkers(limits: Limits, cpus: int64): (n: nat)
    ensures 0 < n <= MAX_INT64
    ensures limits.workers > 0 ==> n == limits.workers
    ensures limits.workers <= 0 ==> n == (if cpus > 1 then cpus else 1)
  {
    if limits.workers > 0 then limits.workers else if cpus < 1 then 1 else cpus
  }

  datatype Found = Found(nonce: uint64, hash: string)

  datatype ExitReason = SawCancel | PastMaxNonce | OverAttempts | Sent | ChannelFull | NonceOverflow

  datatype WorkerPc =
    | CheckContext
    | Count
    | StoreMaximum
    | CancelAtMaximum
    | Copy
    | HashCopy(candidate: Block)
    | Send(hash: string)
    | CancelAfterSend
    | Exited(reason: ExitReason)

  datatype Worker = Worker(nonce: uint64, pc: WorkerPc)

  datatype ContextError = DeadlineExceeded | ContextCanceled

  datatype Outcome =
    | Success(nonce: uint64, hash: string, attempts: nat, difficulty: int, workers: nat)
    | MiningTimeout
    | MiningCancelled
    | MaxAttempts
    | MaxNonce

  datatype MainPc =
    | Select
    | StoreNonce(found: Found)
    | StoreHash(found: Found)
    | LoadAttempts(found: Found)
    | Recheck
    | LoadMaximum
    | Returning(outcome: Outcome)
    | Returned(outcome: Outcome)

  /** `log` records the nonces in the order in which they were hashed. */
  datatype State = State(
    block: Block,
    attempts: nat,
    maximumReached: bool,
    cancelled: bool,
    channel: Option<Found>,
    workersDone: bool,
    parent: Option<ContextError>,
    main: MainPc,
    workers: seq<Worker>,
    log: seq<uint64>)

  datatype Action =
    | WorkerStep(id: nat, seenNonce: uint64, seenHash: string)
    | CloseDone
    | Receive
    | SeeParent
    | SeeDone
    | MainStep
    | ParentEnds(error: ContextError)
    | Propagate

  predicate AllExited(workers: seq<Worker>) {
    forall i :: 0 <= i < |workers| ==> workers[i].pc.Exited?
  }

  predicate Enabled(s: State, a: Action) {
    match a
    case WorkerStep(id, _, _) => id < |s.workers| && !s.workers[id].pc.Exited?
    case CloseDone => !s.workersDone && AllExited(s.workers)
    case Receive => s.main.Select? && s.channel.Some?
    case SeeParent => s.main.Select? && s.parent.Some?
    case SeeDone => s.main.Select? && s.workersDone
    case MainStep => !s.main.Select? && !s.main.Returned?
    case ParentEnds(_) => s.parent.None?
    case Propagate => s.parent.Some? && !s.cancelled
  }

  function Init(cfg: Config, parent: Option<ContextError>): State
    requires cfg.Valid()
  {
    State(cfg.block, 0, false, parent.Some?, None, false, parent, Select,
          seq(cfg.workers, i requires 0 <= i < cfg.workers => Worker(i, CheckContext)), [])
  }

  /** One step of worker i. A copy of the shared block may race with the caller's writes, so the
    nonce and hash it sees are arbitrary. */
  function StepWorker(cfg: Config, s: State, i: nat, seenNonce: uint64, seenHash: string): State
    requires cfg.Valid() && i < |s.workers| && !s.workers[i].pc.Exited?
  {
    var w := s.workers[i];
    match w.pc
    case CheckContext =>
      s.(workers := s.workers[i := w.(pc := if s.cancelled then Exited(SawCancel) else Count)])
    case Count =>
      if cfg.limits.maxNonce > 0 && w.nonce > cfg.limits.maxNonce then
        s.(workers := s.workers[i := w.(pc := Exited(PastMaxNonce))])
      else
        var over := cfg.limits.maxAttempts > 0 && s.attempts + 1 > cfg.limits.maxAttempts;
        s.(attempts := s.attempts + 1, workers := s.workers[i := w.(pc := if over then StoreMaximum else Copy)])
    case StoreMaximum =>
      s.(maximumReached := true, workers := s.workers[i := w.(pc := CancelAtMaximum)])
    case CancelAtMaximum =>
      s.(cancelled := true, workers := s.workers[i := w.(pc := Exited(OverAttempts))])
    case Copy =>
      var candidate := s.block.(nonce := seenNonce, hash := seenHash);
      s.(workers := s.workers[i := w.(pc := HashCopy(candidate))])
    case HashCopy(candidate) =>
      var hash := ComputeHash(cfg.lib, candidate.(nonce := w.nonce));
      var w' :=
        if MeetsDifficulty(hash, candidate.difficulty) then w.(pc := Send(hash))
        else if w.nonce > MAX_UINT64 - cfg.workers then w.(pc := Exited(NonceOverflow))
        else Worker(w.nonce + cfg.workers, CheckContext);
      s.(log := s.log + [w.nonce], workers := s.workers[i := w'])
    case Send(hash) =>
      if s.channel.None? then
        s.(channel := Some(Found(w.nonce, hash)), workers := s.workers[i := w.(pc := CancelAfterSend)])
      else
        s.(workers := s.workers[i := w.(pc := Exited(ChannelFull))])
    case CancelAfterSend =>
      s.(cancelled := true, workers := s.workers[i := w.(pc := Exited(Sent))])
  }

  /** One step of the caller outside its select; returning runs the deferred cancel. */
  function StepMain(cfg: Config, s: State): State
    requires !s.main.Select? && !s.main.Returned?
  {
    match s.main
    case StoreNonce(f) => s.(block := s.block.(nonce := f.nonce), main := StoreHash(f))
    case StoreHash(f) => s.(block := s.block.(hash := f.hash), main := LoadAttempts(f))
    case LoadAttempts(f) =>
      s.(main := Returning(Success(f.nonce, f.hash, s.attempts, s.block.difficulty, cfg.workers)))
    case Recheck =>
      if s.channel.Some? then s.(channel := None, main := StoreNonce(s.channel.value)) else s.(main := LoadMaximum)
    case LoadMaximum => s.(main := Returning(if s.maximumReached then MaxAttempts else MaxNonce))
    case Returning(o) => s.(cancelled := true, main := Returned(o))
  }

  function Apply(cfg: Config, s: State, a: Action): State
    requires cfg.Valid() && Enabled(s, a)
  {
    match a
    case WorkerStep(id, seenNonce, seenHash) => StepWorker(cfg, s, id, seenNonce, seenHash)
    case CloseDone => s.(workersDone := true)
    case Receive => s.(channel := None, main := StoreNonce(s.channel.value))
    case SeeParent =>
      s.(main := Returning(if s.parent.value.DeadlineExceeded? then MiningTimeout else MiningCancelled))
    case SeeDone => s.(main := Recheck)
    case MainStep => StepMain(cfg, s)
    case ParentEnds(error) => s.(parent := Some(error))
    case Propagate => s.(cancelled := true)
  }

  // ---------- runs ----------

  predicate IsRun(cfg: Config, s: State, run: seq<Action>)
    requires cfg.Valid()
    decreases |run|
  {
    run == [] || (Enabled(s, run[0]) && IsRun(cfg, Apply(cfg, s, run[0]), run[1..]))
  }

  function Execute(cfg: Config, s: State, run: seq<Action>): State
    requires cfg.Valid() && IsRun(cfg, s, run)
    decreases |run|
  {
    if run == [] then s else Execute(cfg, Apply(cfg, s, run[0]), run[1..])
  }

  /** A schedule that takes one call of Mine from its start to its return. */
  predicate IsCompleteRun(cfg: Config, parent: Option<ContextError>, run: seq<Action>)
    requires cfg.Valid()
  {
    && IsRun(cfg, Init(cfg, parent), run)
    && Execute(cfg, Init(cfg, parent), run).main.Returned?
  }

  // ---------- the invariant ----------

  /** The worker in whose stripe nonce m lies. */
  function Residue(m: nat, n: nat): (r: nat)
    requires n > 0
    ensures r < n
  {
    m % n
  }

  /** The worker has hashed its current nonce. */
  predicate Hashed(pc: WorkerPc) {
    pc.Send? || pc.CancelAfterSend? || (pc.Exited? && pc.reason in {Sent, ChannelFull, NonceOverflow})
  }

  /** The current nonce of the worker is a hit. */
  predicate OnHit(pc: WorkerPc) {
    pc.Send? || Delivered(pc)
  }

  /** The worker is past its send: its result, or an earlier one, is in the channel's hands. */
  predicate Delivered(pc: WorkerPc) {
    pc.CancelAfterSend? || (pc.Exited? && pc.reason in {Sent, ChannelFull})
  }

  predicate OverCap(pc: WorkerPc) {
    pc.StoreMaximum? || pc.CancelAtMaximum? || (pc.Exited? && pc.reason.OverAttempts?)
  }

  function InFlightCount(w: Worker): nat { if w.pc.Copy? || w.pc.HashCopy? then 1 else 0 }

  function OverCapCount(w: Worker): nat { if OverCap(w.pc) then 1 else 0 }

  function Sum(workers: seq<Worker>, f: Worker -> nat): nat {
    if workers == [] then 0 else f(workers[0]) + Sum(workers[1..], f)
  }

  predicate SameExceptResult(a: Block, b: Block) {
    a == b.(nonce := a.nonce, hash := a.hash)
  }

  predicate WorkerOk(cfg: Config, i: nat, w: Worker)
    requires cfg.Valid()
  {
    && Residue(w.nonce, cfg.workers) == i
    && (w.pc.Copy? || w.pc.HashCopy? || Hashed(w.pc) ==> w.nonce <= cfg.LastNonce())
    && (w.pc.HashCopy? ==> SameExceptResult(w.pc.candidate, cfg.block))
    && (w.pc.Send? ==> w.pc.hash == cfg.HashAt(w.nonce))
    && (OnHit(w.pc) ==> cfg.Hit(w.nonce))
    && (w.pc == Exited(PastMaxNonce) ==> w.nonce > cfg.LastNonce())
    && (w.pc == Exited(NonceOverflow) ==> w.nonce > MAX_UINT64 - cfg.workers)
  }

  ghost predicate WorkersOk(cfg: Config, s: State)
    requires cfg.Valid()
  {
    && |s.workers| == cfg.workers
    && forall i :: 0 <= i < cfg.workers ==> WorkerOk(cfg, i, s.workers[i])
  }

  predicate Tried(w: Worker, m: uint64) {
    m < w.nonce || (m == w.nonce && Hashed(w.pc))
  }

  /** Exactly the nonces each worker has passed were hashed, none twice, and a worker never
    leaves a hit behind. */
  ghost predicate LogOk(cfg: Config, s: State)
    requires cfg.Valid() && |s.workers| == cfg.workers
  {
    && (forall m: uint64 :: m in s.log <==> Tried(s.workers[Residue(m, cfg.workers)], m))
    && (forall i, j :: 0 <= i < j < |s.log| ==> s.log[i] != s.log[j])
    && (forall m: uint64 :: m in s.log && cfg.Hit(m) ==>
          s.workers[Residue(m, cfg.workers)].nonce == m && OnHit(s.workers[Residue(m, cfg.workers)].pc))
    && (forall m: uint64 :: m in s.log ==> m <= cfg.LastNonce())
  }

  ghost predicate AttemptsOk(cfg: Config, s: State)
    requires cfg.Valid() && |s.workers| == cfg.workers
  {
    var cap := cfg.limits.maxAttempts;
    && s.attempts == |s.log| + Sum(s.workers, InFlightCount) + Sum(s.workers, OverCapCount)
    && Sum(s.workers, OverCapCount) == (if cap > 0 && s.attempts > cap then s.attempts - cap else 0)
    && (forall i :: 0 <= i < |s.workers| && OverCap(s.workers[i].pc) ==> cap > 0 && s.attempts > cap)
    && (s.maximumReached ==> cap > 0 && s.attempts > cap)
    && (forall i :: 0 <= i < |s.workers| && OverCap(s.workers[i].pc) && !s.workers[i].pc.StoreMaximum? ==>
          s.maximumReached)
    && (cfg.workers == 1 ==> |s.log| == s.workers[0].nonce + if Hashed(s.workers[0].pc) then 1 else 0)
  }

  function Holding(main: MainPc): Option<Found> {
    match main
    case StoreNonce(f) => Some(f)
    case StoreHash(f) => Some(f)
    case LoadAttempts(f) => Some(f)
    case Returning(Success(m, h, _, _, _)) => Some(Found(m, h))
    case Returned(Success(m, h, _, _, _)) => Some(Found(m, h))
    case _ => None
  }

  function Ending(main: MainPc): Option<Outcome> {
    if main.Returning? || main.Returned? then Some(main.outcome) else None
  }

  predicate FoundOk(cfg: Config, s: State, f: Found) {
    f.nonce in s.log && cfg.Hit(f.nonce) && f.hash == cfg.HashAt(f.nonce)
  }

  predicate GaveUp(main: MainPc) {
    Ending(main) == Some(MiningTimeout) || Ending(main) == Some(MiningCancelled)
  }

  /** The caller has found all workers gone and the channel empty. */
  predicate Exhausted(main: MainPc) {
    main.LoadMaximum? || Ending(main) == Some(MaxAttempts) || Ending(main) == Some(MaxNonce)
  }

  /** The block carries exactly the writes the caller has made so far. */
  predicate SharedBlockOk(cfg: Config, s: State) {
    match s.main
    case StoreHash(f) => s.block == cfg.block.(nonce := f.nonce)
    case LoadAttempts(f) => s.block == cfg.block.(nonce := f.nonce, hash := f.hash)
    case Returning(Success(m, h, _, _, _)) => s.block == cfg.block.(nonce := m, hash := h)
    case Returned(Success(m, h, _, _, _)) => s.block == cfg.block.(nonce := m, hash := h)
    case _ => s.block == cfg.block
  }

  ghost predicate ResultOk(cfg: Config, s: State) {
    && SharedBlockOk(cfg, s)
    && (s.channel.Some? ==> FoundOk(cfg, s, s.channel.value))
    && (Holding(s.main).Some? ==> FoundOk(cfg, s, Holding(s.main).value))
    && (forall i :: 0 <= i < |s.workers| && Delivered(s.workers[i].pc) ==>
          s.channel.Some? || Holding(s.main).Some? || GaveUp(s.main))
    && (s.main.Recheck? || Exhausted(s.main) ==> s.workersDone)
    && (s.workersDone ==> AllExited(s.workers))
    && (Exhausted(s.main) ==> s.channel.None?)
    && (Ending(s.main) == Some(MaxAttempts) ==> s.maximumReached)
    && (Ending(s.main) == Some(MaxNonce) ==> !s.maximumReached)
    && (Ending(s.main) == Some(MiningTimeout) ==> s.parent == Some(DeadlineExceeded))
    && (Ending(s.main) == Some(MiningCancelled) ==> s.parent == Some(ContextCanceled))
    && (Ending(s.main).Some? && Ending(s.main).value.Success? ==> ReportOk(cfg, s, Ending(s.main).value))
  }

  predicate ReportOk(cfg: Config, s: State, o: Outcome)
    requires o.Success?
  {
    && o.attempts <= s.attempts
    && o.difficulty == cfg.block.difficulty
    && o.workers == cfg.workers
    && (cfg.workers == 1 ==> o.attempts == o.nonce + 1)
  }

  ghost predicate AnyDelivered(workers: seq<Worker>) {
    exists i :: 0 <= i < |workers| && Delivered(workers[i].pc)
  }

  /** Why a cancellation, or an exit on one, has come about. */
  ghost predicate CancelOk(s: State) {
    && (s.cancelled ==> s.parent.Some? || s.maximumReached || AnyDelivered(s.workers) || s.main.Returned?)
    && (forall i :: 0 <= i < |s.workers| && s.workers[i].pc == Exited(SawCancel) ==>
          s.parent.Some? || s.maximumReached || AnyDelivered(s.workers) || (s.main.Returned? && !Exhausted(s.main)))
  }

  /** The worker has ended the search for all. */
  predicate Cancels(pc: WorkerPc) {
    pc == Exited(Sent) || pc == Exited(OverAttempts)
  }

  ghost predicate StopOk(s: State) {
    && (forall i :: 0 <= i < |s.workers| && Cancels(s.workers[i].pc) ==> s.cancelled)
    && (s.main.Returned? ==> s.cancelled)
  }

  ghost predicate Inv(cfg: Config, s: State)
    requires cfg.Valid()
  {
    WorkersOk(cfg, s) && LogOk(cfg, s) && AttemptsOk(cfg, s) && ResultOk(cfg, s) && CancelOk(s) && StopOk(s)
  }
}
