/** Bounds, the scaling chokepoint and the two decisions (raxis/kernel/src/elastic.rs). */
module ElasticScaling {
  import opened Wrappers
  import opened Basics
  import H = ScaleHistory

  type U32 = x: nat | x <= U32_MAX

  datatype Direction = Up | Down

  datatype Signal = InferenceBurnRate | IpcBackpressure | MemoryPressure | ToolTimeoutBurst
  {
    function Name(): string {
      match this
      case InferenceBurnRate => "InferenceBurnRate"
      case IpcBackpressure => "IpcBackpressure"
      case MemoryPressure => "MemoryPressure"
      case ToolTimeoutBurst => "ToolTimeoutBurst"
    }
  }

  /** The machine: the two scaled axes; everything else is carried over unchanged. */
  datatype VmSpec = VmSpec(vcpus: U32, memMib: U32, rest: string)

  datatype Multiplier = Multiplier(vcpuFactor: U32, memNum: U32, memDen: U32)

  const SINGLE_SIGNAL: Multiplier := Multiplier(2, 3, 2)
  const MULTI_SIGNAL: Multiplier := Multiplier(2, 4, 2)
  const NEXT_SPAWN_DOWN: Multiplier := Multiplier(0, 3, 4)

  datatype Bounds = Bounds(minVcpus: U32, maxVcpus: U32, minMemory: U32, maxMemory: U32)

  datatype Policy = Policy(enabled: bool, maxVcpus: U32, maxMemory: U32)

  datatype Plan = Plan(
    elastic: Option<bool>,
    minVcpus: Option<U32>,
    maxVcpus: Option<U32>,
    minMemory: Option<U32>,
    maxMemory: Option<U32>)

  function OrElse(o: Option<U32>, d: U32): U32 {
    if o.Some? then o.value else d
  }

  function Resolve(policy: Policy, plan: Plan): Bounds {
    var maxV := Min(OrElse(plan.maxVcpus, policy.maxVcpus), policy.maxVcpus);
    var maxM := Min(OrElse(plan.maxMemory, policy.maxMemory), policy.maxMemory);
    Bounds(Min(Max(OrElse(plan.minVcpus, 1), 1), maxV), maxV, Min(OrElse(plan.minMemory, 0), maxM), maxM)
  }

  /** value * num / den, saturating at the 32-bit maximum. */
  function MulFracClamped(value: U32, num: U32, den: U32): U32 {
    var scaled: nat := value * num;
    var divisor: nat := Max(den, 1);
    Min(scaled / divisor, U32_MAX)
  }

  function BuildScaled(base: VmSpec, dir: Direction, m: Multiplier, b: Bounds, elastic: bool): VmSpec {
    var v :=
      if dir.Up? then
        (if elastic then Max(Min(Min(base.vcpus * m.vcpuFactor, U32_MAX), b.maxVcpus), b.minVcpus) else base.vcpus)
      else
        var raw := if m.vcpuFactor == 0 then (if base.vcpus == 0 then 0 else base.vcpus - 1)
                   else base.vcpus / Max(m.vcpuFactor, 1);
        Min(Max(raw, b.minVcpus), b.maxVcpus);
    var mem :=
      if dir.Up? then
        (if elastic then Max(Min(MulFracClamped(base.memMib, m.memNum, m.memDen), b.maxMemory), b.minMemory)
         else base.memMib)
      else
        Min(Max(MulFracClamped(base.memMib, m.memNum, m.memDen), b.minMemory), b.maxMemory);
    base.(vcpus := v, memMib := mem)
  }

  datatype Decision = Apply(spec: VmSpec, direction: Direction, reason: string) | Skip(reason: string)

  function DecideUp(base: VmSpec, signals: seq<Signal>, policy: Policy, plan: Plan): Decision {
    if plan.elastic == Some(false) then Skip("ElasticDisabledPlan")
    else if !policy.enabled then Skip("ElasticDisabledPolicy")
    else if signals == [] then Skip("NoSignal")
    else
      var b := Resolve(policy, plan);
      if base.vcpus >= b.maxVcpus && base.memMib >= b.maxMemory then Skip("AtCeiling")
      else
        var spec := BuildScaled(base, Up, if |signals| >= 2 then MULTI_SIGNAL else SINGLE_SIGNAL, b, true);
        if spec.vcpus == base.vcpus && spec.memMib == base.memMib then Skip("AtCeiling")
        else Apply(spec, Up, if |signals| >= 2 then "MultiSignal" else signals[0].Name())
  }

  /** The decision over a role's queue of samples and the tracker's window size. */
  function DecideDown(base: VmSpec, policy: Policy, plan: Plan, queue: seq<H.Sample>, window: nat): Decision {
    if !H.WindowUnder(queue, window) then
      Skip(if |queue| < H.WINDOW_SIZE then "InsufficientHistory" else "AboveThresholds")
    else
      var b := Resolve(policy, plan);
      if base.vcpus <= b.minVcpus && base.memMib <= b.minMemory then Skip("AtFloor")
      else
        var spec := BuildScaled(base, Down, NEXT_SPAWN_DOWN, b, true);
        if spec.vcpus == base.vcpus && spec.memMib == base.memMib then Skip("AtFloor")
        else Apply(spec, Down, "NextSpawnUnderUtilised")
  }

  // ----- Bounds -----

  ghost predicate Inside(s: VmSpec, b: Bounds) {
    b.minVcpus <= s.vcpus <= b.maxVcpus && b.minMemory <= s.memMib <= b.maxMemory
  }

  /** No plan lifts a ceiling above policy or leaves an empty range. */
  lemma PlanOnlyNarrows(policy: Policy, plan: Plan)
    ensures var b := Resolve(policy, plan);
            b.minVcpus <= b.maxVcpus <= policy.maxVcpus && b.minMemory <= b.maxMemory <= policy.maxMemory
  {
  }

  // ----- One step -----

  function Adopt(base: VmSpec, d: Decision): VmSpec {
    if d.Apply? then d.spec else base
  }

  lemma UpFacts(base: VmSpec, signals: seq<Signal>, policy: Policy, plan: Plan)
    requires Inside(base, Resolve(policy, plan))
    ensures var d := DecideUp(base, signals, policy, plan);
            var s := Adopt(base, d);
            && Inside(s, Resolve(policy, plan)) && s.rest == base.rest
            && base.vcpus <= s.vcpus && base.memMib <= s.memMib
            && (d.Apply? ==> base.vcpus < s.vcpus || base.memMib < s.memMib)
  {
    hide Resolve;
    PlanOnlyNarrows(policy, plan);
    var m: int := base.memMib;
    assert m <= m * 3 / 2 && m <= m * 4 / 2;
  }

  lemma DownFacts(base: VmSpec, policy: Policy, plan: Plan, queue: seq<H.Sample>, window: nat)
    requires Inside(base, Resolve(policy, plan))
    ensures var d := DecideDown(base, policy, plan, queue, window);
            var s := Adopt(base, d);
            && Inside(s, Resolve(policy, plan)) && s.rest == base.rest
            && s.vcpus <= base.vcpus && s.memMib <= base.memMib
            && (d.Apply? ==> s.vcpus < base.vcpus || s.memMib < base.memMib)
  {
    hide Resolve, H.WindowUnder;
    PlanOnlyNarrows(policy, plan);
    var m: int := base.memMib;
    assert m * 3 / 4 <= m;
  }

  /** The chokepoint moves an axis the wrong way exactly when it starts beyond its bound. */
  lemma ScaledMonotone(base: VmSpec, policy: Policy, plan: Plan, multi: bool)
    ensures var b := Resolve(policy, plan);
            var up := BuildScaled(base, Up, if multi then MULTI_SIGNAL else SINGLE_SIGNAL, b, true);
            var down := BuildScaled(base, Down, NEXT_SPAWN_DOWN, b, true);
            && (base.vcpus <= up.vcpus <==> base.vcpus <= b.maxVcpus)
            && (base.memMib <= up.memMib <==> base.memMib <= b.maxMemory)
            && (down.vcpus <= base.vcpus <==> b.minVcpus <= base.vcpus)
            && (down.memMib <= base.memMib <==> b.minMemory <= base.memMib)
  {
    hide Resolve;
    PlanOnlyNarrows(policy, plan);
    var m: int := base.memMib;
    assert m <= m * 3 / 2 && m <= m * 4 / 2 && m * 3 / 4 <= m;
  }

  /** Exactly where a scale-up lowers nothing: it cuts an axis that starts above its ceiling,
      unless the other axis has no room either, or scaling is switched off or unprompted. */
  lemma UpMonotoneIff(base: VmSpec, signals: seq<Signal>, policy: Policy, plan: Plan)
    ensures var b := Resolve(policy, plan);
            var off := plan.elastic == Some(false) || !policy.enabled || signals == [];
            var up := Adopt(base, DecideUp(base, signals, policy, plan));
            && (base.vcpus <= up.vcpus <==> base.vcpus <= b.maxVcpus || base.memMib >= b.maxMemory || off)
            && (base.memMib <= up.memMib <==> base.memMib <= b.maxMemory || base.vcpus >= b.maxVcpus || off)
  {
    hide Resolve, BuildScaled;
    ScaledMonotone(base, policy, plan, |signals| >= 2);
  }

  /** Exactly where a scale-down raises nothing: it lifts an axis that starts below its floor,
      unless the other axis has no room either, or the samples do not allow it. */
  lemma DownMonotoneIff(base: VmSpec, policy: Policy, plan: Plan, queue: seq<H.Sample>, window: nat)
    ensures var b := Resolve(policy, plan);
            var off := !H.WindowUnder(queue, window);
            var down := Adopt(base, DecideDown(base, policy, plan, queue, window));
            && (down.vcpus <= base.vcpus <==> b.minVcpus <= base.vcpus || base.memMib <= b.minMemory || off)
            && (down.memMib <= base.memMib <==> b.minMemory <= base.memMib || base.vcpus <= b.minVcpus || off)
  {
    hide Resolve, BuildScaled, H.WindowUnder;
    ScaledMonotone(base, policy, plan, false);
  }

  /** Eight vCPUs under a policy ceiling of four: memory still has room, so the scale-up is
      applied, and it halves the vCPUs. */
  lemma UpCanCut()
    ensures var policy, plan := Policy(true, 4, 1000), Plan(None, None, None, None, None);
            var d := DecideUp(VmSpec(8, 100, ""), [MemoryPressure], policy, plan);
            d.Apply? && d.spec.vcpus == 4 && d.spec.memMib == 150
  {
  }

  /** One vCPU under a plan floor of two: memory is above its floor, so the scale-down is
      applied, and it doubles the vCPUs. */
  lemma DownCanLift()
    ensures var quiet := seq(H.WINDOW_SIZE, _ => H.Sample(0, 0));
            var policy, plan := Policy(true, 4, 2000), Plan(None, Some(2), None, None, None);
            var d := DecideDown(VmSpec(1, 1000, ""), policy, plan, quiet, H.WINDOW_SIZE);
            d.Apply? && d.spec.vcpus == 2 && d.spec.memMib == 750
  {
  }

  // ----- Runs -----

  datatype Tick = TickUp(signals: seq<Signal>) | TickDown(queue: seq<H.Sample>, window: nat)

  function Next(s: VmSpec, policy: Policy, plan: Plan, t: Tick): VmSpec {
    match t
    case TickUp(signals) => Adopt(s, DecideUp(s, signals, policy, plan))
    case TickDown(queue, window) => Adopt(s, DecideDown(s, policy, plan, queue, window))
  }

  function Run(s: VmSpec, policy: Policy, plan: Plan, ticks: seq<Tick>): VmSpec {
    if ticks == [] then s else Next(Run(s, policy, plan, ticks[..|ticks| - 1]), policy, plan, ticks[|ticks| - 1])
  }

  /** Every run of decisions stays inside the resolved bounds and keeps the rest of the spec. */
  lemma {:induction false} RunStaysInside(s: VmSpec, policy: Policy, plan: Plan, ticks: seq<Tick>)
    requires Inside(s, Resolve(policy, plan))
    ensures Inside(Run(s, policy, plan, ticks), Resolve(policy, plan)) && Run(s, policy, plan, ticks).rest == s.rest
    decreases |ticks|
  {
    hide DecideUp, DecideDown, Resolve, Inside;
    if ticks == [] {
    } else {
      var p, t := ticks[..|ticks| - 1], ticks[|ticks| - 1];
      RunStaysInside(s, policy, plan, p);
      var r := Run(s, policy, plan, p);
      match t
      case TickUp(signals) => UpFacts(r, signals, policy, plan);
      case TickDown(queue, window) => DownFacts(r, policy, plan, queue, window);
    }
  }

  function Pow2(k: nat): nat {
    if k == 0 then 1 else 2 * Pow2(k - 1)
  }

  lemma UpDoubles(base: VmSpec, signals: seq<Signal>, policy: Policy, plan: Plan)
    requires Inside(base, Resolve(policy, plan)) && base.vcpus > 0
    requires plan.elastic != Some(false) && policy.enabled && signals != []
    ensures Adopt(base, DecideUp(base, signals, policy, plan)).vcpus ==
            Min(Resolve(policy, plan).maxVcpus, 2 * base.vcpus)
  {
    hide Resolve, MulFracClamped;
    PlanOnlyNarrows(policy, plan);
  }

  /** After k scale-ups with signals the vCPU count is min(ceiling, v * 2^k). */
  lemma {:induction false} UpsDouble(s: VmSpec, policy: Policy, plan: Plan, ticks: seq<Tick>)
    requires Inside(s, Resolve(policy, plan)) && s.vcpus > 0
    requires plan.elastic != Some(false) && policy.enabled
    requires forall i :: 0 <= i < |ticks| ==> ticks[i].TickUp? && ticks[i].signals != []
    ensures Run(s, policy, plan, ticks).vcpus == Min(Resolve(policy, plan).maxVcpus, s.vcpus * Pow2(|ticks|))
    decreases |ticks|
  {
    hide DecideUp, DecideDown, Resolve;
    if ticks == [] {
      assert Pow2(0) == 1;
    } else {
      var p, t := ticks[..|ticks| - 1], ticks[|ticks| - 1];
      UpsDouble(s, policy, plan, p);
      RunStaysInside(s, policy, plan, p);
      var x := s.vcpus * Pow2(|p|);
      PowPositive(|p|);
      assert x >= s.vcpus;
      UpDoubles(Run(s, policy, plan, p), t.signals, policy, plan);
      assert s.vcpus * Pow2(|ticks|) == 2 * x by { Double(s.vcpus, |p|); }
    }
  }

  lemma {:induction false} PowPositive(k: nat)
    ensures Pow2(k) >= 1
    decreases k
  {
    if k == 0 {
    } else {
      PowPositive(k - 1);
    }
  }

  lemma Double(v: nat, k: nat)
    ensures v * Pow2(k + 1) == 2 * (v * Pow2(k)) && v * Pow2(k) >= 0
  {
  }

  /** A scale-down that is allowed makes the machine smaller, unless both axes are at their floor. */
  lemma DownShrinks(base: VmSpec, policy: Policy, plan: Plan, queue: seq<H.Sample>, window: nat)
    requires Inside(base, Resolve(policy, plan)) && H.WindowUnder(queue, window)
    ensures var b := Resolve(policy, plan);
            var s := Adopt(base, DecideDown(base, policy, plan, queue, window));
            || (s == base && base.vcpus == b.minVcpus && base.memMib == b.minMemory)
            || s.vcpus + s.memMib < base.vcpus + base.memMib
  {
    hide Resolve, H.WindowUnder;
    PlanOnlyNarrows(policy, plan);
    var m: int := base.memMib;
    assert m > 0 ==> m * 3 / 4 < m;
  }

  /** Enough scale-downs reach the floor of both axes exactly. */
  lemma {:induction false} DownsReachFloor(s: VmSpec, policy: Policy, plan: Plan, ticks: seq<Tick>)
    requires Inside(s, Resolve(policy, plan))
    requires forall i :: 0 <= i < |ticks| ==> ticks[i].TickDown? && H.WindowUnder(ticks[i].queue, ticks[i].window)
    ensures var b := Resolve(policy, plan);
            var r := Run(s, policy, plan, ticks);
            (r.vcpus == b.minVcpus && r.memMib == b.minMemory) || r.vcpus + r.memMib + |ticks| <= s.vcpus + s.memMib
    ensures |ticks| > s.vcpus + s.memMib ==>
              Run(s, policy, plan, ticks).vcpus == Resolve(policy, plan).minVcpus
              && Run(s, policy, plan, ticks).memMib == Resolve(policy, plan).minMemory
    decreases |ticks|
  {
    hide DecideUp, DecideDown, Resolve, H.WindowUnder;
    if ticks == [] {
    } else {
      var p, t := ticks[..|ticks| - 1], ticks[|ticks| - 1];
      DownsReachFloor(s, policy, plan, p);
      RunStaysInside(s, policy, plan, p);
      var r := Run(s, policy, plan, p);
      DownShrinks(r, policy, plan, t.queue, t.window);
      DownFacts(r, policy, plan, t.queue, t.window);
    }
  }

  // ----- The skip reason -----

  function DownReason(queue: seq<H.Sample>, window: nat): string {
    if |queue| < window then "InsufficientHistory" else "AboveThresholds"
  }

  /** The skip reason is right for every queue exactly for the default window of five. */
  lemma SkipReasonRightIff(window: nat)
    requires window > 0
    ensures window == 5 <==>
            (forall base, policy, plan, queue :: |queue| <= window && !H.WindowUnder(queue, window) ==>
               DecideDown(base, policy, plan, queue, window) == Skip(DownReason(queue, window)))
  {
    if window != H.WINDOW_SIZE {
      var busy := H.Sample(100, 100);
      var n := if window < H.WINDOW_SIZE then window else H.WINDOW_SIZE;
      var queue := seq(n, _ => busy);
      var base, policy, plan := VmSpec(1, 1, ""), Policy(true, 1, 1), Plan(None, None, None, None, None);
      assert window < H.WINDOW_SIZE ==> !H.Under(queue[0]);
      assert !H.WindowUnder(queue, window);
      assert DecideDown(base, policy, plan, queue, window) != Skip(DownReason(queue, window));
    }
  }

  /** A tracker with a window of one, full with one sample above the thresholds, is said to have
      too little history. */
  lemma SkipReasonWrong(base: VmSpec, policy: Policy, plan: Plan)
    ensures var queue := H.Queue(H.Run([H.Record(H.Executor, H.Sample(100, 100))], 1), H.Executor);
            && |queue| == 1 && DownReason(queue, 1) == "AboveThresholds"
            && DecideDown(base, policy, plan, queue, 1) == Skip("InsufficientHistory")
  {
    var ops := [H.Record(H.Executor, H.Sample(100, 100))];
    assert ops[..0] == [];
    H.RunLast(ops, 1);
    var queue := H.Queue(H.Run(ops, 1), H.Executor);
    assert queue == [H.Sample(100, 100)];
    assert !H.Under(queue[0]) && !H.WindowUnder(queue, 1);
  }

  /** The samples allow a scale-down: the window is full and its samples are under the thresholds. */
  ghost predicate Quiet(s: seq<H.Sample>, window: nat) {
    |s| >= window && forall i :: |s| - window <= i < |s| ==> s[i].peakMemoryPct <= 30 && s[i].peakVcpuPct <= 50
  }

  /** Over every run of a tracker with any window: the decision goes past the samples exactly when
      they allow a scale-down; otherwise its reason compares with the default window. */
  lemma SkipReasonEveryWindow(
    base: VmSpec, policy: Policy, plan: Plan, ops: seq<H.Op>, window: nat, role: H.Role)
    requires window > 0
    ensures var s := H.SinceClear(ops, role);
            var d := DecideDown(base, policy, plan, H.Queue(H.Run(ops, window), role), window);
            && (d.Apply? || d.reason == "AtFloor" <==> Quiet(s, window))
            && (!Quiet(s, window) ==>
                  d == Skip(if |s| < 5 || window < 5 then "InsufficientHistory" else "AboveThresholds"))
  {
    hide H.Run, H.SinceClear, H.Under, Resolve, BuildScaled;
    H.QueueIsLastN(ops, window, role);
    H.TriggerIff(ops, window, role);
  }

  /** Over every run of the tracker with its default window, the decision skips with the reason
      that fits the samples since the last clear. */
  lemma SkipReasonOverRuns(base: VmSpec, policy: Policy, plan: Plan, ops: seq<H.Op>, role: H.Role)
    ensures var s := H.SinceClear(ops, role);
            var d := DecideDown(base, policy, plan, H.Queue(H.Run(ops, 5), role), 5);
            && (|s| < 5 ==> d == Skip("InsufficientHistory"))
            && (|s| >= 5 && !Quiet(s, 5) ==> d == Skip("AboveThresholds"))
            && (d.Apply? || d.reason == "AtFloor" <==> Quiet(s, 5))
  {
    hide H.Run, H.SinceClear, H.Under, DecideDown;
    SkipReasonEveryWindow(base, policy, plan, ops, H.WINDOW_SIZE, role);
  }

  // ----- The exact factors -----

  /** Memory grows by half with one signal and doubles with several, up to the ceiling. */
  lemma UpMemory(base: VmSpec, signals: seq<Signal>, policy: Policy, plan: Plan)
    requires Inside(base, Resolve(policy, plan))
    requires plan.elastic != Some(false) && policy.enabled && signals != []
    ensures var m, n: int := base.memMib, Adopt(base, DecideUp(base, signals, policy, plan)).memMib;
            || (n == Resolve(policy, plan).maxMemory && n <= (if |signals| == 1 then m * 3 / 2 else 2 * m))
            || (if |signals| == 1 then 2 * n <= 3 * m < 2 * n + 2 else n == 2 * m)
  {
    hide Resolve;
    PlanOnlyNarrows(policy, plan);
    var m: int := base.memMib;
    assert m <= m * 3 / 2 && m * 4 / 2 == 2 * m;
  }

  /** A scale-down takes one vCPU and a quarter of the memory, down to the floors. */
  lemma DownExact(base: VmSpec, policy: Policy, plan: Plan, queue: seq<H.Sample>, window: nat)
    requires Inside(base, Resolve(policy, plan)) && H.WindowUnder(queue, window)
    ensures var b := Resolve(policy, plan);
            var s := Adopt(base, DecideDown(base, policy, plan, queue, window));
            && (s.vcpus == b.minVcpus || s.vcpus + 1 == base.vcpus) && s.vcpus + 1 >= base.vcpus
            && (s.memMib == b.minMemory || 4 * s.memMib <= 3 * base.memMib)
            && 3 * base.memMib < 4 * s.memMib + 4
  {
    hide Resolve, H.WindowUnder;
    PlanOnlyNarrows(policy, plan);
    var m: int := base.memMib;
    assert 4 * (m * 3 / 4) <= 3 * m < 4 * (m * 3 / 4) + 4;
  }

  // ----- In plain numbers -----

  /** A plan's ceiling counts where it is below policy's, its floor where it is below the ceiling;
      without a floor it is one vCPU and no memory. */
  lemma BoundsAre(policy: Policy, plan: Plan)
    ensures var b := Resolve(policy, plan);
            && (plan.maxVcpus.Some? && plan.maxVcpus.value <= policy.maxVcpus ==> b.maxVcpus == plan.maxVcpus.value)
            && (plan.maxVcpus.None? || plan.maxVcpus.value >= policy.maxVcpus ==> b.maxVcpus == policy.maxVcpus)
            && (plan.maxMemory.Some? && plan.maxMemory.value <= policy.maxMemory ==>
                  b.maxMemory == plan.maxMemory.value)
            && (plan.maxMemory.None? || plan.maxMemory.value >= policy.maxMemory ==> b.maxMemory == policy.maxMemory)
            && (plan.minVcpus.Some? && 1 <= plan.minVcpus.value <= b.maxVcpus ==> b.minVcpus == plan.minVcpus.value)
            && (plan.minVcpus.None? && b.maxVcpus >= 1 ==> b.minVcpus == 1)
            && (plan.minVcpus.Some? && plan.minVcpus.value == 0 && b.maxVcpus >= 1 ==> b.minVcpus == 1)
            && (b.maxVcpus == 0 || (plan.minVcpus.Some? && plan.minVcpus.value > b.maxVcpus) ==>
                  b.minVcpus == b.maxVcpus)
            && (plan.minMemory.Some? && plan.minMemory.value <= b.maxMemory ==> b.minMemory == plan.minMemory.value)
            && (plan.minMemory.None? ==> b.minMemory == 0)
            && (plan.minMemory.Some? && plan.minMemory.value > b.maxMemory ==> b.minMemory == b.maxMemory)
  {
  }

  /** Why a scale-up is skipped, and what an applied one is called. */
  lemma UpReasons(base: VmSpec, signals: seq<Signal>, policy: Policy, plan: Plan)
    ensures var d := DecideUp(base, signals, policy, plan);
            && (plan.elastic == Some(false) ==> d == Skip("ElasticDisabledPlan"))
            && (plan.elastic != Some(false) && !policy.enabled ==> d == Skip("ElasticDisabledPolicy"))
            && (plan.elastic != Some(false) && policy.enabled && signals == [] ==> d == Skip("NoSignal"))
            && (plan.elastic != Some(false) && policy.enabled && signals != [] && d.Skip? ==> d.reason == "AtCeiling")
            && (d.Apply? ==>
                  && d.direction == Up
                  && (|signals| >= 2 ==> d.reason == "MultiSignal")
                  && (signals == [InferenceBurnRate] ==> d.reason == "InferenceBurnRate")
                  && (signals == [IpcBackpressure] ==> d.reason == "IpcBackpressure")
                  && (signals == [MemoryPressure] ==> d.reason == "MemoryPressure")
                  && (signals == [ToolTimeoutBurst] ==> d.reason == "ToolTimeoutBurst"))
  {
    hide Resolve, BuildScaled;
  }

  /** From inside the bounds a prompted scale-up is skipped exactly at both ceilings, or where doubling
      and halving change nothing; a scale-down that the samples allow exactly at both floors. */
  lemma SkippedOnlyAtBounds(
    base: VmSpec, signals: seq<Signal>, policy: Policy, plan: Plan, queue: seq<H.Sample>, window: nat)
    requires Inside(base, Resolve(policy, plan)) && base.vcpus > 0 && base.memMib > 1
    ensures plan.elastic != Some(false) && policy.enabled && signals != [] ==>
              var b := Resolve(policy, plan);
              DecideUp(base, signals, policy, plan).Skip? <==> base.vcpus == b.maxVcpus && base.memMib == b.maxMemory
    ensures H.WindowUnder(queue, window) ==>
              var b := Resolve(policy, plan);
              var d := DecideDown(base, policy, plan, queue, window);
              && (d.Skip? <==> base.vcpus == b.minVcpus && base.memMib == b.minMemory)
              && d == (if d.Skip? then Skip("AtFloor") else Apply(d.spec, Down, "NextSpawnUnderUtilised"))
  {
    hide Resolve, H.WindowUnder;
    PlanOnlyNarrows(policy, plan);
    var m: int := base.memMib;
    assert m < m * 3 / 2 && m < m * 4 / 2 && m * 3 / 4 < m;
  }

  /** The product is cut to whole units and to 32 bits; a denominator of zero counts as one. */
  lemma FractionIs(value: U32, num: U32, den: U32)
    ensures var p: nat := value * num;
            var r := MulFracClamped(value, num, den);
            && (den > 0 && p / den < 0x1_0000_0000 ==> r == p / den)
            && (den == 0 && p < 0x1_0000_0000 ==> r == p)
            && (den > 0 && p / den >= 0x1_0000_0000 ==> r == 0xFFFF_FFFF)
            && (den == 0 && p >= 0x1_0000_0000 ==> r == 0xFFFF_FFFF)
  {
  }

  /** Without the elastic flag a scale-up changes nothing; a scale-down ignores the flag. */
  lemma FlagOnlyStopsUp(base: VmSpec, m: Multiplier, b: Bounds)
    ensures BuildScaled(base, Up, m, b, false) == base
    ensures BuildScaled(base, Down, m, b, false) == BuildScaled(base, Down, m, b, true)
  {
  }
}
