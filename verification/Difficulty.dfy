/** The difficulty schedule and automatic retargeting (chain/chain.go, chain/retarget.go). */
module Difficulty {
  import opened Records

  const DEFAULT_DIFFICULTY: int := 4

  datatype RetargetConfig = RetargetConfig(
    enabled: bool,
    interval: int,
    targetBlockSeconds: int,
    minDifficulty: int,
    maxDifficulty: int)
  {
    predicate Valid() {
      && interval >= 2
      && targetBlockSeconds > 0
      && 0 <= minDifficulty <= maxDifficulty <= 64
    }

    /** Retargeting divides by the interval; anything else makes the program panic. */
    predicate Usable() {
      enabled ==> interval >= 1
    }

    predicate ShouldRetarget(height: int)
      requires Usable()
    {
      enabled && height > interval && (height - 1) % interval == 0
    }
  }

  /** Go's integer division by two, which truncates. */
  function Half(x: int): int {
    if x >= 0 then x / 2 else -((-x) / 2)
  }

  function Clamp(rt: RetargetConfig, d: int): int {
    var low := if d < rt.minDifficulty then rt.minDifficulty else d;
    if low > rt.maxDifficulty then rt.maxDifficulty else low
  }

  function ExpectedSeconds(rt: RetargetConfig): int {
    (rt.interval - 1) * rt.targetBlockSeconds
  }

  /** The window before a retarget height lies within the blocks. */
  predicate HasWindow(rt: RetargetConfig, blocks: seq<Block>, height: int) {
    height - rt.interval >= 1 && height - 1 < |blocks|
  }

  function WindowSeconds(rt: RetargetConfig, blocks: seq<Block>, height: int): int
    requires rt.interval >= 1 && HasWindow(rt, blocks, height)
  {
    blocks[height - 1].timestamp - blocks[height - rt.interval].timestamp
  }

  predicate TooFast(rt: RetargetConfig, blocks: seq<Block>, height: int)
    requires rt.interval >= 1 && HasWindow(rt, blocks, height)
  {
    WindowSeconds(rt, blocks, height) < Half(ExpectedSeconds(rt))
  }

  predicate TooSlow(rt: RetargetConfig, blocks: seq<Block>, height: int)
    requires rt.interval >= 1 && HasWindow(rt, blocks, height)
  {
    WindowSeconds(rt, blocks, height) > ExpectedSeconds(rt) * 2
  }

  function RetargetDifficulty(rt: RetargetConfig, blocks: seq<Block>, height: int, current: int): int
    requires rt.interval >= 1
  {
    if !HasWindow(rt, blocks, height) then current
    else if TooFast(rt, blocks, height) then Clamp(rt, current + 1)
    else if TooSlow(rt, blocks, height) then Clamp(rt, current - 1)
    else Clamp(rt, current)
  }

  // ---------- the schedule ----------

  /** The last rule in the list that starts at a height. */
  function RuleAt(rules: seq<DifficultyRule>, height: int): (r: Option<DifficultyRule>)
    ensures r.Some? ==> r.value in rules && r.value.startHeight == height
    ensures r.None? ==> forall q :: q in rules ==> q.startHeight != height
  {
    if rules == [] then None
    else
      var last := rules[|rules| - 1];
      var r := if last.startHeight == height then Some(last) else RuleAt(rules[..|rules| - 1], height);
      assert rules == rules[..|rules| - 1] + [last];
      r
  }

  /** The last rule with the greatest start height that is not positive. */
  function BaseRule(rules: seq<DifficultyRule>): (r: Option<DifficultyRule>)
    ensures r.Some? ==> r.value in rules && r.value.startHeight <= 0
    ensures r.Some? ==> forall q :: q in rules && q.startHeight <= 0 ==> q.startHeight <= r.value.startHeight
    ensures r.None? ==> forall q :: q in rules ==> q.startHeight > 0
  {
    if rules == [] then None
    else
      var last, before := rules[|rules| - 1], BaseRule(rules[..|rules| - 1]);
      assert rules == rules[..|rules| - 1] + [last];
      if last.startHeight <= 0 && (before.None? || before.value.startHeight <= last.startHeight) then Some(last)
      else before
  }

  /** The policy as a recurrence: a rule at this height, else a retarget of the previous value,
    else the previous value. */
  function DifficultyAt(rules: seq<DifficultyRule>, blocks: seq<Block>, rt: RetargetConfig, h: nat): int
    requires rt.Usable()
  {
    if h == 0 then
      var base := BaseRule(rules);
      if base.Some? then base.value.difficulty else DEFAULT_DIFFICULTY
    else
      var before := DifficultyAt(rules, blocks, rt, h - 1);
      var rule := RuleAt(rules, h);
      if rule.Some? then rule.value.difficulty
      else if rt.ShouldRetarget(h) then RetargetDifficulty(rt, blocks, h, before)
      else before
  }

  method ComputeRetarget(rt: RetargetConfig, blocks: seq<Block>, height: int, current: int) returns (next: int)
    requires rt.interval >= 1
    ensures next == RetargetDifficulty(rt, blocks, height, current)
  {
    var windowStart := height - rt.interval;
    var windowEnd := height - 1;
    if windowStart < 1 || windowEnd >= |blocks| {
      return current;
    }
    var actualSeconds := blocks[windowEnd].timestamp - blocks[windowStart].timestamp;
    var expectedSeconds := (rt.interval - 1) * rt.targetBlockSeconds;
    next := current;
    if actualSeconds < Half(expectedSeconds) {
      next := next + 1;
    } else if actualSeconds > expectedSeconds * 2 {
      next := next - 1;
    }
    if next < rt.minDifficulty {
      next := rt.minDifficulty;
    }
    if next > rt.maxDifficulty {
      next := rt.maxDifficulty;
    }
  }

  lemma {:induction false} RuleAtPrefix(rules: seq<DifficultyRule>, k: nat, height: int)
    requires k <= |rules|
    requires forall i :: k <= i < |rules| ==> rules[i].startHeight != height
    ensures RuleAt(rules[..k], height) == RuleAt(rules, height)
    decreases |rules|
  {
    if k < |rules| {
      RuleAtPrefix(rules[..|rules| - 1], k, height);
      assert rules[..|rules| - 1][..k] == rules[..k];
    } else {
      assert rules[..k] == rules;
    }
  }

  lemma {:induction false} BaseRulePrefix(rules: seq<DifficultyRule>, k: nat)
    requires k <= |rules|
    requires forall i :: k <= i < |rules| ==> rules[i].startHeight > 0
    ensures BaseRule(rules[..k]) == BaseRule(rules)
    decreases |rules|
  {
    if k < |rules| {
      BaseRulePrefix(rules[..|rules| - 1], k);
      assert rules[..|rules| - 1][..k] == rules[..k];
    } else {
      assert rules[..k] == rules;
    }
  }

  /** The rules before an index start below a height, the others at or above it. */
  ghost predicate SplitAt(rules: seq<DifficultyRule>, k: nat, height: int) {
    && k <= |rules|
    && (forall i :: 0 <= i < k ==> rules[i].startHeight < height)
    && (forall i :: k <= i < |rules| ==> rules[i].startHeight >= height)
  }

  method TakeBaseRules(rules: seq<DifficultyRule>) returns (current: int, ruleIndex: nat)
    requires SortedByHeight(rules)
    ensures SplitAt(rules, ruleIndex, 1)
    ensures current == if BaseRule(rules).Some? then BaseRule(rules).value.difficulty else DEFAULT_DIFFICULTY
  {
    hide BaseRule;
    current := DEFAULT_DIFFICULTY;
    ruleIndex := 0;
    BaseRuleNone();
    while ruleIndex < |rules| && rules[ruleIndex].startHeight <= 0
      invariant ruleIndex <= |rules|
      invariant forall i :: 0 <= i < ruleIndex ==> rules[i].startHeight <= 0
      invariant var base := BaseRule(rules[..ruleIndex]);
                current == if base.Some? then base.value.difficulty else DEFAULT_DIFFICULTY
    {
      BaseRuleNext(rules, ruleIndex);
      current := rules[ruleIndex].difficulty;
      ruleIndex := ruleIndex + 1;
    }
    BaseRulePrefix(rules, ruleIndex);
  }

  method TakeRulesAt(rules: seq<DifficultyRule>, first: nat, blockHeight: int, before: int)
    returns (current: int, ruleIndex: nat, manualRuleApplied: bool)
    requires SortedByHeight(rules) && SplitAt(rules, first, blockHeight)
    ensures SplitAt(rules, ruleIndex, blockHeight + 1)
    ensures manualRuleApplied == RuleAt(rules, blockHeight).Some?
    ensures current == if manualRuleApplied then RuleAt(rules, blockHeight).value.difficulty else before
  {
    hide RuleAt;
    current, ruleIndex, manualRuleApplied := before, first, false;
    RuleAtNone(rules, ruleIndex, blockHeight);
    while ruleIndex < |rules| && rules[ruleIndex].startHeight == blockHeight
      invariant ruleIndex <= |rules|
      invariant forall i :: 0 <= i < ruleIndex ==> rules[i].startHeight <= blockHeight
      invariant forall i :: ruleIndex <= i < |rules| ==> rules[i].startHeight >= blockHeight
      invariant var rule := RuleAt(rules[..ruleIndex], blockHeight);
                manualRuleApplied == rule.Some? && current == if rule.Some? then rule.value.difficulty else before
    {
      RuleAtNext(rules, ruleIndex, blockHeight);
      current := rules[ruleIndex].difficulty;
      manualRuleApplied := true;
      ruleIndex := ruleIndex + 1;
    }
    RuleAtPrefix(rules, ruleIndex, blockHeight);
  }

  /** One pass over the sorted rules with a moving index computes the recurrence. */
  method ScanRules(rules: seq<DifficultyRule>, blocks: seq<Block>, rt: RetargetConfig, height: nat)
    returns (current: int)
    requires SortedByHeight(rules) && rt.Usable()
    ensures current == DifficultyAt(rules, blocks, rt, height)
  {
    hide RuleAt, BaseRule, RetargetDifficulty, SplitAt, SortedByHeight;
    var ruleIndex;
    current, ruleIndex := TakeBaseRules(rules);
    var blockHeight := 1;
    while blockHeight <= height
      invariant 1 <= blockHeight <= height + 1
      invariant SplitAt(rules, ruleIndex, blockHeight)
      invariant current == DifficultyAt(rules, blocks, rt, blockHeight - 1)
    {
      var manualRuleApplied;
      current, ruleIndex, manualRuleApplied := TakeRulesAt(rules, ruleIndex, blockHeight, current);
      if !manualRuleApplied && rt.ShouldRetarget(blockHeight) {
        current := ComputeRetarget(rt, blocks, blockHeight, current);
      }
      blockHeight := blockHeight + 1;
    }
  }

  lemma BaseRuleNone()
    ensures BaseRule([]) == None
  {}

  lemma BaseRuleNext(rules: seq<DifficultyRule>, k: nat)
    requires k < |rules| && SortedByHeight(rules) && rules[k].startHeight <= 0
    ensures BaseRule(rules[..k + 1]) == Some(rules[k])
  {
    assert rules[..k + 1][..k] == rules[..k];
  }

  lemma RuleAtNone(rules: seq<DifficultyRule>, k: nat, height: int)
    requires k <= |rules| && forall i :: 0 <= i < k ==> rules[i].startHeight < height
    ensures RuleAt(rules[..k], height) == None
  {}

  lemma RuleAtNext(rules: seq<DifficultyRule>, k: nat, height: int)
    requires k < |rules| && rules[k].startHeight == height
    ensures RuleAt(rules[..k + 1], height) == Some(rules[k])
  {}

  // ---------- locality ----------

  /** Rules of one height agree, so their order does not matter. */
  ghost predicate Consistent(rules: seq<DifficultyRule>) {
    forall q: DifficultyRule, r: DifficultyRule :: q in rules && r in rules && q.startHeight == r.startHeight ==> q == r
  }

  ghost predicate SameRulesBelow(a: seq<DifficultyRule>, b: seq<DifficultyRule>, limit: int) {
    || a == b
    || (&& Consistent(a) && Consistent(b)
        && forall r: DifficultyRule :: r.startHeight < limit ==> (r in a <==> r in b))
  }

  /** The blocks below a height carry the same timestamps. */
  ghost predicate SameTimesBelow(a: seq<Block>, b: seq<Block>, limit: int) {
    || a == b
    || (limit <= |a| && limit <= |b| && forall i :: 0 <= i < limit ==> a[i].timestamp == b[i].timestamp)
  }

  /** The difficulty of a height depends only on the rules up to it, in any order, and on the
    timestamps below it. */
  lemma {:induction false} DifficultyIsLocal(a: seq<DifficultyRule>, b: seq<DifficultyRule>,
                                             x: seq<Block>, y: seq<Block>, rt: RetargetConfig, h: nat)
    requires rt.Usable()
    requires SameRulesBelow(a, b, h + 1) && SameTimesBelow(x, y, h)
    ensures DifficultyAt(a, x, rt, h) == DifficultyAt(b, y, rt, h)
    decreases h
  {
    if h == 0 {
      BaseAgrees(a, b);
    } else {
      DifficultyIsLocal(a, b, x, y, rt, h - 1);
      RuleAgrees(a, b, h);
    }
  }

  lemma BaseAgrees(a: seq<DifficultyRule>, b: seq<DifficultyRule>)
    requires SameRulesBelow(a, b, 1)
    ensures BaseRule(a) == BaseRule(b)
  {
    if BaseRule(a).Some? {
      assert BaseRule(a).value in b;
    }
    if BaseRule(b).Some? {
      assert BaseRule(b).value in a;
    }
  }

  lemma RuleAgrees(a: seq<DifficultyRule>, b: seq<DifficultyRule>, h: int)
    requires SameRulesBelow(a, b, h + 1)
    ensures RuleAt(a, h) == RuleAt(b, h)
  {
    if RuleAt(a, h).Some? {
      assert RuleAt(a, h).value in b;
    }
    if RuleAt(b, h).Some? {
      assert RuleAt(b, h).value in a;
    }
  }

  lemma SortedSame(lib: Library, rules: seq<DifficultyRule>)
    ensures forall r :: r in lib.sortRules(rules) <==> r in rules
    ensures |lib.sortRules(rules)| == |rules|
  {
    var sorted := lib.sortRules(rules);
    assert multiset(sorted) == multiset(rules);
    forall r ensures r in sorted <==> r in rules {
      assert r in sorted <==> r in multiset(sorted);
    }
    assert |multiset(sorted)| == |sorted|;
  }

  /** The scan over the sorted schedule gives the recurrence on the schedule as it stands. */
  lemma SortingIsIrrelevant(lib: Library, rules: seq<DifficultyRule>, blocks: seq<Block>, rt: RetargetConfig, h: nat)
    requires rt.Usable() && Consistent(rules)
    ensures DifficultyAt(lib.sortRules(rules), blocks, rt, h) == DifficultyAt(rules, blocks, rt, h)
  {
    SortedSame(lib, rules);
    DifficultyIsLocal(lib.sortRules(rules), rules, blocks, blocks, rt, h);
  }

  // ---------- range ----------

  ghost predicate RulesInRange(rules: seq<DifficultyRule>) {
    forall r: DifficultyRule :: r in rules ==> 0 <= r.difficulty <= 64
  }

  lemma {:induction false} DifficultyInRange(rules: seq<DifficultyRule>, blocks: seq<Block>, rt: RetargetConfig, h: nat)
    requires rt.Valid() && RulesInRange(rules)
    ensures 0 <= DifficultyAt(rules, blocks, rt, h) <= 64
  {
    if h > 0 {
      DifficultyInRange(rules, blocks, rt, h - 1);
    }
  }
}
