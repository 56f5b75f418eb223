/** How automatic retargeting moves the difficulty (chain/retarget.go). */
module DifficultyTheorems {
  import opened Records
  import opened Difficulty
  import opened Integers

  // ---------- periods ----------

  /** A height whose block opens a timing window. */
  predicate PeriodStart(rt: RetargetConfig, a: int)
    requires rt.interval >= 1
  {
    a >= 1 && (a - 1) % rt.interval == 0
  }

  lemma NextPeriod(rt: RetargetConfig, a: int)
    requires rt.enabled && rt.interval >= 1 && PeriodStart(rt, a)
    ensures PeriodStart(rt, a + rt.interval) && rt.ShouldRetarget(a + rt.interval)
    ensures forall h :: a < h < a + rt.interval ==> !rt.ShouldRetarget(h)
  {
    ModShift(a - 1, rt.interval);
    forall h | a < h < a + rt.interval ensures !rt.ShouldRetarget(h) {
      NoMultipleBetween(a - 1, h - 1, rt.interval);
    }
  }

  /** The windows used at the retarget heights partition the blocks from height 1 on: every such
    block lies in the window of exactly one retarget height, and genesis in none. */
  lemma WindowsPartition(rt: RetargetConfig, m: int)
    requires rt.enabled && rt.interval >= 1 && m >= 1
    ensures var h := ((m - 1) / rt.interval + 1) * rt.interval + 1;
            && rt.ShouldRetarget(h)
            && 1 <= h - rt.interval <= m <= h - 1
            && forall g :: rt.ShouldRetarget(g) && g - rt.interval <= m <= g - 1 ==> g == h
    ensures forall g :: rt.ShouldRetarget(g) ==> g - rt.interval >= 1
  {
    var n, q := rt.interval, (m - 1) / rt.interval;
    var h := (q + 1) * n + 1;
    assert m - 1 == n * q + (m - 1) % n;
    assert (q + 1) * n == n * q + n;
    Quotient(h - 1, n, q + 1, 0);
    assert h - n == n * q + 1;
    assert n * q >= 0;
    forall g | rt.ShouldRetarget(g) && g - n <= m <= g - 1 ensures g == h {
      if g < h {
        NoMultipleBetween(h - 1 - n, g - 1, n) by { Quotient(h - 1 - n, n, q, 0); }
      } else if g > h {
        NoMultipleBetween(h - 1, g - 1, n);
      }
    }
  }

  // ---------- bounds ----------

  /** A computed retarget lands within the bounds and moves by at most one from inside them. */
  lemma RetargetBounded(rt: RetargetConfig, blocks: seq<Block>, height: int, current: int)
    requires rt.Valid() && HasWindow(rt, blocks, height)
    ensures var next := RetargetDifficulty(rt, blocks, height, current);
            && rt.minDifficulty <= next <= rt.maxDifficulty
            && (rt.minDifficulty <= current <= rt.maxDifficulty ==> -1 <= next - current <= 1)
  {}

  lemma {:induction false} ConstantWithin(rules: seq<DifficultyRule>, blocks: seq<Block>, rt: RetargetConfig,
                                          a: nat, h: nat)
    requires rt.Usable() && a <= h
    requires forall g :: a < g <= h ==> RuleAt(rules, g).None? && !rt.ShouldRetarget(g)
    ensures DifficultyAt(rules, blocks, rt, h) == DifficultyAt(rules, blocks, rt, a)
    decreases h
  {
    if a < h {
      assert RuleAt(rules, h).None?;
      ConstantWithin(rules, blocks, rt, a, h - 1);
    }
  }

  lemma NextWindow(rules: seq<DifficultyRule>, blocks: seq<Block>, rt: RetargetConfig, a: nat)
    requires rt.enabled && rt.Valid() && PeriodStart(rt, a)
    requires forall g :: a < g <= a + rt.interval ==> RuleAt(rules, g).None?
    ensures PeriodStart(rt, a + rt.interval)
    ensures DifficultyAt(rules, blocks, rt, a + rt.interval)
            == RetargetDifficulty(rt, blocks, a + rt.interval, DifficultyAt(rules, blocks, rt, a))
  {
    NextPeriod(rt, a);
    var h := a + rt.interval;
    assert RuleAt(rules, h).None?;
    ConstantWithin(rules, blocks, rt, a, h - 1);
  }

  function Min(x: int, y: int): int { if x < y then x else y }

  function Max(x: int, y: int): int { if x > y then x else y }

  /** How a window moves the difficulty: up when it took less than half of its target time, down when it
    took more than twice that. A window of `interval` blocks spans one block time less than that. */
  function Correction(rt: RetargetConfig, seconds: int): int {
    var target := (rt.interval - 1) * rt.targetBlockSeconds;
    if 2 * (seconds + 1) <= target then 1 else if seconds > 2 * target then -1 else 0
  }

  lemma HalfIsMiddle(seconds: int, target: int)
    requires target >= 0
    ensures seconds < Half(target) <==> 2 * (seconds + 1) <= target
  {}

  /** A retarget follows the time between the first and the last block of its window, within the bounds. */
  lemma RetargetFollowsPace(rt: RetargetConfig, blocks: seq<Block>, height: int, current: int)
    requires rt.Valid() && 1 <= height - rt.interval && height - 1 < |blocks|
    ensures var seconds := blocks[height - 1].timestamp - blocks[height - rt.interval].timestamp;
            RetargetDifficulty(rt, blocks, height, current)
            == Max(rt.minDifficulty, Min(rt.maxDifficulty, current + Correction(rt, seconds)))
  {
    hide Half;
    assert (rt.interval - 1) * rt.targetBlockSeconds >= 0;
    HalfIsMiddle(WindowSeconds(rt, blocks, height), ExpectedSeconds(rt));
  }

  // ---------- the policy ----------

  ghost predicate NoRuleAt(rules: seq<DifficultyRule>, h: int) {
    forall r: DifficultyRule :: r in rules ==> r.startHeight != h
  }

  /** The policy at a height above 0: a rule for it decides; otherwise an enabled policy corrects the
    difficulty below at each multiple of the interval plus one whose window exists; otherwise it stays. */
  lemma DifficultyFollowsPolicy(rules: seq<DifficultyRule>, blocks: seq<Block>, rt: RetargetConfig, h: nat)
    requires rt.Valid() && h > 0
    ensures forall r: DifficultyRule :: Consistent(rules) && r in rules && r.startHeight == h ==>
              DifficultyAt(rules, blocks, rt, h) == r.difficulty
    ensures NoRuleAt(rules, h) ==>
              var before := DifficultyAt(rules, blocks, rt, h - 1);
              DifficultyAt(rules, blocks, rt, h)
              == if rt.enabled && h > rt.interval && (h - 1) % rt.interval == 0 && h - 1 < |blocks| then
                   var seconds := blocks[h - 1].timestamp - blocks[h - rt.interval].timestamp;
                   Max(rt.minDifficulty, Min(rt.maxDifficulty, before + Correction(rt, seconds)))
                 else before
  {
    hide Correction, TooFast, TooSlow, Clamp;
    if h > rt.interval && h - 1 < |blocks| {
      RetargetFollowsPace(rt, blocks, h, DifficultyAt(rules, blocks, rt, h - 1));
    }
  }

  /** The rule is the last one in force at a height. */
  ghost predicate InForce(rules: seq<DifficultyRule>, r: DifficultyRule, h: nat) {
    && r in rules && r.startHeight <= h
    && forall q: DifficultyRule :: q in rules && q.startHeight <= h ==> q.startHeight <= r.startHeight
  }

  /** Without retargeting the rules alone decide, whatever the blocks: the last one in force, or the
    default difficulty of 4 before the first. */
  lemma {:induction false} DisabledFollowsRules(rules: seq<DifficultyRule>, blocks: seq<Block>, rt: RetargetConfig,
                                                h: nat)
    requires !rt.enabled && Consistent(rules)
    ensures forall r: DifficultyRule :: InForce(rules, r, h) ==> DifficultyAt(rules, blocks, rt, h) == r.difficulty
    ensures (forall r: DifficultyRule :: r in rules ==> r.startHeight > h) ==>
              DifficultyAt(rules, blocks, rt, h) == 4
    decreases h
  {
    if h > 0 {
      DisabledFollowsRules(rules, blocks, rt, h - 1);
      forall r: DifficultyRule | InForce(rules, r, h) ensures DifficultyAt(rules, blocks, rt, h) == r.difficulty {
        if RuleAt(rules, h).None? {
          assert InForce(rules, r, h - 1);
        }
      }
    }
  }

  // ---------- a kept pace ----------

  datatype Pace = Fast | Slow

  /** The k windows from height a on exist and all took less than half of their target time, or all more
    than twice that. */
  predicate KeptPace(pace: Pace, blocks: seq<Block>, rt: RetargetConfig, a: nat, k: nat)
    requires rt.interval >= 1
    decreases k
  {
    k == 0 ||
    (&& a >= 1 && a + rt.interval - 1 < |blocks|
     && Correction(rt, blocks[a + rt.interval - 1].timestamp - blocks[a].timestamp) == (if pace.Fast? then 1 else -1)
     && KeptPace(pace, blocks, rt, a + rt.interval, k - 1))
  }

  /** The height k windows further on. */
  function Later(rt: RetargetConfig, a: nat, k: nat): (end: nat)
    requires rt.interval >= 1
    ensures end >= a
    decreases k
  {
    if k == 0 then a else Later(rt, a + rt.interval, k - 1)
  }

  lemma {:induction false} LaterBy(rt: RetargetConfig, a: nat, k: nat)
    requires rt.interval >= 1
    ensures Later(rt, a, k) == a + k * rt.interval
    decreases k
  {
    if k > 0 {
      LaterBy(rt, a + rt.interval, k - 1);
      assert k * rt.interval == rt.interval + (k - 1) * rt.interval;
    }
  }

  /** A difficulty moved k steps against the pace, as far as the bounds allow. */
  function Moved(pace: Pace, rt: RetargetConfig, d: int, k: nat): int {
    if pace.Fast? then Min(rt.maxDifficulty, d + k) else Max(rt.minDifficulty, d - k)
  }

  lemma MovedOnce(pace: Pace, rules: seq<DifficultyRule>, blocks: seq<Block>, rt: RetargetConfig, a: nat)
    requires rt.enabled && rt.Valid() && PeriodStart(rt, a)
    requires forall g :: a < g <= a + rt.interval ==> RuleAt(rules, g).None?
    requires KeptPace(pace, blocks, rt, a, 1)
    requires rt.minDifficulty <= DifficultyAt(rules, blocks, rt, a) <= rt.maxDifficulty
    ensures PeriodStart(rt, a + rt.interval)
    ensures var next := DifficultyAt(rules, blocks, rt, a + rt.interval);
            && next == Moved(pace, rt, DifficultyAt(rules, blocks, rt, a), 1)
            && rt.minDifficulty <= next <= rt.maxDifficulty
  {
    hide DifficultyAt, RuleAt, RetargetDifficulty, Correction, PeriodStart;
    NextWindow(rules, blocks, rt, a);
    RetargetFollowsPace(rt, blocks, a + rt.interval, DifficultyAt(rules, blocks, rt, a));
  }

  lemma MovedOnceMore(pace: Pace, rt: RetargetConfig, d: int, k: nat)
    requires k > 0 && rt.minDifficulty <= d <= rt.maxDifficulty
    ensures Moved(pace, rt, Moved(pace, rt, d, 1), k - 1) == Moved(pace, rt, d, k)
  {}

  lemma KeptPaceSplits(pace: Pace, blocks: seq<Block>, rt: RetargetConfig, a: nat, k: nat)
    requires k > 0 && rt.interval >= 1 && KeptPace(pace, blocks, rt, a, k)
    ensures KeptPace(pace, blocks, rt, a, 1) && KeptPace(pace, blocks, rt, a + rt.interval, k - 1)
  {}

  lemma {:induction false} PaceInduction(pace: Pace, rules: seq<DifficultyRule>, blocks: seq<Block>,
                                         rt: RetargetConfig, a: nat, k: nat)
    requires rt.enabled && rt.Valid() && PeriodStart(rt, a)
    requires forall g :: a < g <= Later(rt, a, k) ==> RuleAt(rules, g).None?
    requires KeptPace(pace, blocks, rt, a, k)
    requires rt.minDifficulty <= DifficultyAt(rules, blocks, rt, a) <= rt.maxDifficulty
    ensures DifficultyAt(rules, blocks, rt, Later(rt, a, k)) == Moved(pace, rt, DifficultyAt(rules, blocks, rt, a), k)
    decreases k
  {
    if k > 0 {
      hide DifficultyAt, RuleAt, KeptPace, PeriodStart, Moved, RetargetConfig.Valid;
      KeptPaceSplits(pace, blocks, rt, a, k);
      MovedOnce(pace, rules, blocks, rt, a);
      MovedOnceMore(pace, rt, DifficultyAt(rules, blocks, rt, a), k);
      PaceInduction(pace, rules, blocks, rt, a + rt.interval, k - 1);
    }
  }

  /** k windows of one pace without manual rules move a difficulty within the bounds by k, as far as
    the bounds allow. */
  lemma KeptPaceMoves(pace: Pace, rules: seq<DifficultyRule>, blocks: seq<Block>, rt: RetargetConfig,
                      a: nat, k: nat, end: nat)
    requires rt.enabled && rt.Valid() && PeriodStart(rt, a) && end == a + k * rt.interval
    requires forall g :: a < g <= end ==> RuleAt(rules, g).None?
    requires KeptPace(pace, blocks, rt, a, k)
    requires rt.minDifficulty <= DifficultyAt(rules, blocks, rt, a) <= rt.maxDifficulty
    ensures DifficultyAt(rules, blocks, rt, end) == Moved(pace, rt, DifficultyAt(rules, blocks, rt, a), k)
  {
    hide DifficultyAt, RuleAt, KeptPace, PeriodStart, Moved;
    LaterBy(rt, a, k);
    PaceInduction(pace, rules, blocks, rt, a, k);
  }

  // ---------- the next retarget ----------

  /** The least height above the tip at which the program retargets; -1 when it never does. */
  function NextRetargetHeight(rt: RetargetConfig, tip: int): (height: int)
    requires rt.Usable()
    ensures rt.enabled ==> height > tip && rt.ShouldRetarget(height)
    ensures rt.enabled ==> forall h :: tip < h < height ==> !rt.ShouldRetarget(h)
    ensures !rt.enabled ==> height == -1
  {
    if !rt.enabled then -1
    else
      var nextHeight, first := tip + 1, rt.interval + 1;
      var n := rt.interval;
      Quotient(n, n, 1, 0);
      if nextHeight <= first then first
      else
        var offset := (nextHeight - first) % n;
        assert (nextHeight - first + n) % n == offset by { ModShift(nextHeight - first, n); }
        if offset == 0 then nextHeight
        else
          var height := nextHeight + (n - offset);
          NothingBefore(rt, nextHeight, height);
          height
  }

  lemma NothingBefore(rt: RetargetConfig, nextHeight: int, height: int)
    requires rt.enabled && rt.interval >= 1 && nextHeight > rt.interval + 1
    requires var offset := (nextHeight - (rt.interval + 1)) % rt.interval;
             offset != 0 && height == nextHeight + (rt.interval - offset)
    ensures rt.ShouldRetarget(height)
    ensures forall h :: nextHeight <= h < height ==> !rt.ShouldRetarget(h)
  {
    var n := rt.interval;
    var x := nextHeight - (n + 1);
    var q := x / n;
    assert x == n * q + x % n;
    assert height - 1 == n * q + 2 * n;
    assert n * (q + 2) == n * q + 2 * n;
    Quotient(height - 1, n, q + 2, 0);
    forall h | nextHeight <= h < height ensures !rt.ShouldRetarget(h) {
      assert n * (q + 1) == n * q + n;
      Quotient(h - 1, n, q + 1, h - 1 - n * (q + 1));
    }
  }
}
