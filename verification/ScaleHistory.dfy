/** Rolling utilisation windows per role (raxis/kernel/src/elastic.rs). */
module ScaleHistory {

  const WINDOW_SIZE: nat := 5
  const MEMORY_PCT: nat := 30
  const VCPU_PCT: nat := 50

  datatype Role = Orchestrator | Executor | Reviewer

  datatype Sample = Sample(peakMemoryPct: nat, peakVcpuPct: nat)

  predicate Under(s: Sample) {
    s.peakMemoryPct <= MEMORY_PCT && s.peakVcpuPct <= VCPU_PCT
  }

  function Recorded(q: seq<Sample>, window: nat, s: Sample): seq<Sample>
    requires window > 0
  {
    (if |q| >= window then q[1..] else q) + [s]
  }

  function Queue(inner: map<Role, seq<Sample>>, role: Role): seq<Sample> {
    if role in inner then inner[role] else []
  }

  predicate WindowUnder(q: seq<Sample>, window: nat) {
    |q| >= window && forall i :: 0 <= i < |q| ==> Under(q[i])
  }

  class ScaleDownHistory {
    var inner: map<Role, seq<Sample>>
    const window: nat

    ghost predicate Valid()
      reads this
    {
      window > 0
    }

    constructor WithWindowSize(size: nat)
      ensures Valid() && inner == map[] && window == if size == 0 then 1 else size
    {
      inner := map[];
      window := if size == 0 then 1 else size;
    }

    method RecordSample(role: Role, s: Sample)
      requires Valid()
      modifies this
      ensures Valid() && inner == old(inner)[role := Recorded(Queue(old(inner), role), window, s)]
    {
      var queue := if role in inner then inner[role] else [];
      if |queue| >= window {
        queue := queue[1..];
      }
      inner := inner[role := queue + [s]];
    }

    method Samples(role: Role) returns (q: seq<Sample>)
      ensures q == Queue(inner, role)
    {
      q := if role in inner then inner[role] else [];
    }

    /** True when the window is full and every sample is under both thresholds. */
    method ShouldDownscale(role: Role) returns (r: bool)
      requires Valid()
      ensures r == WindowUnder(Queue(inner, role), window)
    {
      if role !in inner {
        return false;
      }
      var queue := inner[role];
      if |queue| < window {
        return false;
      }
      for i := 0 to |queue|
        invariant forall k :: 0 <= k < i ==> Under(queue[k])
      {
        if !(queue[i].peakMemoryPct <= MEMORY_PCT && queue[i].peakVcpuPct <= VCPU_PCT) {
          return false;
        }
      }
      return true;
    }

    method Clear(role: Role)
      requires Valid()
      modifies this
      ensures Valid() && inner == old(inner) - {role}
    {
      inner := inner - {role};
    }
  }

  // ----- Runs -----

  datatype Op = Record(role: Role, sample: Sample) | Clear(role: Role)

  function Step(m: map<Role, seq<Sample>>, window: nat, op: Op): map<Role, seq<Sample>>
    requires window > 0
  {
    match op
    case Record(role, s) => m[role := Recorded(Queue(m, role), window, s)]
    case Clear(role) => m - {role}
  }

  function Run(ops: seq<Op>, window: nat): map<Role, seq<Sample>>
    requires window > 0
  {
    if ops == [] then map[] else Step(Run(ops[..|ops| - 1], window), window, ops[|ops| - 1])
  }

  /** All samples of a role since its last clear, read off the operations alone. */
  function SinceClear(ops: seq<Op>, role: Role): seq<Sample> {
    if ops == [] then []
    else
      var op := ops[|ops| - 1];
      if op == Clear(role) then []
      else SinceClear(ops[..|ops| - 1], role) + if op.Record? && op.role == role then [op.sample] else []
  }

  function LastN(s: seq<Sample>, n: nat): seq<Sample> {
    if |s| <= n then s else s[|s| - n..]
  }

  /** Each role's queue is its last N samples since its last clear, whatever the other roles do. */
  lemma {:induction false} QueueIsLastN(ops: seq<Op>, window: nat, role: Role)
    requires window > 0
    ensures Queue(Run(ops, window), role) == LastN(SinceClear(ops, role), window)
    decreases |ops|
  {
    if ops == [] {
    } else {
      var p, op := ops[..|ops| - 1], ops[|ops| - 1];
      QueueIsLastN(p, window, role);
      QueueStep(Run(p, window), window, op, role);
      RunLast(ops, window);
      SinceLast(ops, role);
      hide Run, Step, Recorded, SinceClear, LastN, Queue;
      assert LastN([], window) == [] by { EmptyLastN(window); }
      if op.Record? && op.role == role {
        RecordLastN(SinceClear(p, role), window, op.sample);
      }
    }
  }

  lemma SinceLast(ops: seq<Op>, role: Role)
    requires ops != []
    ensures var p, op := ops[..|ops| - 1], ops[|ops| - 1];
            SinceClear(ops, role) ==
            if op.role != role then SinceClear(p, role)
            else if op.Clear? then [] else SinceClear(p, role) + [op.sample]
  {
  }

  lemma EmptyLastN(window: nat)
    ensures LastN([], window) == []
  {
  }

  lemma RunLast(ops: seq<Op>, window: nat)
    requires window > 0 && ops != []
    ensures Run(ops, window) == Step(Run(ops[..|ops| - 1], window), window, ops[|ops| - 1])
  {
  }

  /** An operation touches the queue of its own role only. */
  lemma QueueStep(m: map<Role, seq<Sample>>, window: nat, op: Op, role: Role)
    requires window > 0
    ensures Queue(Step(m, window, op), role) ==
            if op.role != role then Queue(m, role)
            else if op.Clear? then [] else Recorded(Queue(m, role), window, op.sample)
  {
  }

  lemma RecordLastN(s: seq<Sample>, window: nat, x: Sample)
    requires window > 0
    ensures Recorded(LastN(s, window), window, x) == LastN(s + [x], window)
  {
    if |s| > window {
      assert LastN(s, window)[1..] == s[|s| - window + 1..];
    }
  }

  /** The trigger fires exactly when N samples exist since the last clear and the last N are all
      under both thresholds. */
  lemma TriggerIff(ops: seq<Op>, window: nat, role: Role)
    requires window > 0
    ensures var s := SinceClear(ops, role);
            WindowUnder(Queue(Run(ops, window), role), window) <==>
            |s| >= window
            && forall i :: |s| - window <= i < |s| ==> s[i].peakMemoryPct <= 30 && s[i].peakVcpuPct <= 50
  {
    hide Run, SinceClear;
    QueueIsLastN(ops, window, role);
    var s := SinceClear(ops, role);
    if |s| >= window {
      var q := LastN(s, window);
      assert forall i :: |s| - window <= i < |s| ==> s[i] == q[i - (|s| - window)];
      assert forall i :: 0 <= i < |q| ==> q[i] == s[i + (|s| - window)];
    }
  }
}
