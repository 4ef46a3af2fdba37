/** The sliding admission window of raxis/kernel/src/elastic.rs. */
module RateLimiter {

  const WINDOW_SECS: nat := 60

  function Cutoff(now: nat): nat {
    if now <= WINDOW_SECS then 0 else now - WINDOW_SECS
  }

  /** Entries older than the cutoff are dropped from the front only. */
  function Pruned(q: seq<nat>, cutoff: nat): seq<nat> {
    if q != [] && q[0] < cutoff then Pruned(q[1..], cutoff) else q
  }

  predicate Defers(q: seq<nat>, budget: nat) {
    budget == 0 || |q| >= budget
  }

  /** The queue after one call, pruned and extended. */
  function Admitting(q: seq<nat>, now: nat, budget: nat): seq<nat> {
    var p := Pruned(q, Cutoff(now));
    if Defers(p, budget) then p else p + [now]
  }

  class ScalingRateLimiter {
    var inner: seq<nat>

    constructor ()
      ensures inner == []
    {
      inner := [];
    }

    method TryAdmit(now: nat, budget: nat) returns (admitted: bool)
      modifies this
      ensures admitted == !Defers(Pruned(old(inner), Cutoff(now)), budget)
      ensures inner == Admitting(old(inner), now, budget)
    {
      var cutoff := Cutoff(now);
      while inner != [] && inner[0] < cutoff
        invariant Pruned(inner, cutoff) == Pruned(old(inner), cutoff)
        decreases |inner|
      {
        inner := inner[1..];
      }
      if budget == 0 || |inner| >= budget {
        return false;
      }
      inner := inner + [now];
      return true;
    }
  }

  // ----- Runs -----

  datatype Call = Call(now: nat, budget: nat)

  /** The queue, and the stamps of all admissions so far. */
  datatype Limiter = Limiter(queue: seq<nat>, log: seq<nat>)

  predicate Admits(l: Limiter, c: Call) {
    !Defers(Pruned(l.queue, Cutoff(c.now)), c.budget)
  }

  function Step(l: Limiter, c: Call): Limiter {
    Limiter(Admitting(l.queue, c.now, c.budget), if Admits(l, c) then l.log + [c.now] else l.log)
  }

  function Run(calls: seq<Call>): Limiter {
    if calls == [] then Limiter([], []) else Step(Run(calls[..|calls| - 1]), calls[|calls| - 1])
  }

  /** How many stamps lie in the closed interval. */
  function CountIn(s: seq<nat>, lo: nat, hi: nat): nat {
    if s == [] then 0
    else CountIn(s[..|s| - 1], lo, hi) + if lo <= s[|s| - 1] <= hi then 1 else 0
  }

  lemma {:induction false} CountConcat(s: seq<nat>, t: seq<nat>, lo: nat, hi: nat)
    ensures CountIn(s + t, lo, hi) == CountIn(s, lo, hi) + CountIn(t, lo, hi)
    decreases |t|
  {
    if t == [] {
      assert s + t == s;
    } else {
      assert (s + t)[..|s + t| - 1] == s + t[..|t| - 1];
      CountConcat(s, t[..|t| - 1], lo, hi);
    }
  }

  lemma {:induction false} CountBounds(s: seq<nat>, lo: nat, hi: nat)
    ensures CountIn(s, lo, hi) <= |s|
    ensures (forall i :: 0 <= i < |s| ==> !(lo <= s[i] <= hi)) ==> CountIn(s, lo, hi) == 0
    ensures (forall i :: 0 <= i < |s| ==> lo <= s[i] <= hi) ==> CountIn(s, lo, hi) == |s|
    decreases |s|
  {
    if s == [] {
    } else {
      CountBounds(s[..|s| - 1], lo, hi);
    }
  }

  /** The queue is the end of the log, and what was dropped is older than the cutoff. */
  ghost predicate Suffix(l: Limiter, cutoff: nat) {
    && |l.queue| <= |l.log|
    && l.queue == l.log[|l.log| - |l.queue|..]
    && forall i :: 0 <= i < |l.log| - |l.queue| ==> l.log[i] < cutoff
  }

  lemma {:induction false} PruneTail(q: seq<nat>, log: seq<nat>, cutoff: nat, bound: nat)
    requires Suffix(Limiter(q, log), bound) && cutoff <= bound
    ensures Suffix(Limiter(Pruned(q, cutoff), log), bound) && |Pruned(q, cutoff)| <= |q|
    decreases |q|
  {
    if q == [] || q[0] >= cutoff {
    } else {
      assert q[0] == log[|log| - |q|];
      assert q[1..] == log[|log| - |q| + 1..];
      PruneTail(q[1..], log, cutoff, bound);
    }
  }

  /** Stamps from the cutoff on are all in the queue. */
  lemma QueueCounts(l: Limiter, cutoff: nat, hi: nat)
    requires Suffix(l, cutoff)
    ensures CountIn(l.log, cutoff, hi) <= |l.queue|
    ensures (forall i :: 0 <= i < |l.queue| ==> cutoff <= l.queue[i] <= hi) ==> CountIn(l.log, cutoff, hi) == |l.queue|
  {
    hide CountIn;
    var k := |l.log| - |l.queue|;
    var dropped := l.log[..k];
    assert l.log == dropped + l.queue;
    CountConcat(dropped, l.queue, cutoff, hi);
    CountBounds(dropped, cutoff, hi);
    CountBounds(l.queue, cutoff, hi);
  }

  ghost predicate Ascending(s: seq<nat>) {
    forall i, j :: 0 <= i < j < |s| ==> s[i] <= s[j]
  }

  lemma {:induction false} PruneAscending(q: seq<nat>, cutoff: nat)
    requires Ascending(q)
    ensures forall i :: 0 <= i < |Pruned(q, cutoff)| ==> Pruned(q, cutoff)[i] >= cutoff
    decreases |q|
  {
    if q == [] || q[0] >= cutoff {
    } else {
      PruneAscending(q[1..], cutoff);
    }
  }

  // ----- A clock that does not go back -----

  ghost predicate ClockOk(calls: seq<Call>) {
    forall i, j :: 0 <= i < j < |calls| ==> calls[i].now <= calls[j].now
  }

  ghost predicate Orderly(l: Limiter, now: nat) {
    Ascending(l.log) && (forall i :: 0 <= i < |l.log| ==> l.log[i] <= now) && Suffix(l, Cutoff(now))
  }

  lemma OrderlyStep(l: Limiter, t: nat, c: Call)
    requires Orderly(l, t) && t <= c.now
    ensures Orderly(Step(l, c), c.now)
    ensures |Pruned(l.queue, Cutoff(c.now))| == CountIn(l.log, Cutoff(c.now), c.now)
  {
    hide CountIn, Pruned;
    var cut := Cutoff(c.now);
    PruneTail(l.queue, l.log, cut, cut);
    var p := Pruned(l.queue, cut);
    assert Ascending(l.queue);
    PruneAscending(l.queue, cut);
    var k := |l.log| - |p|;
    assert forall i :: 0 <= i < |p| ==> p[i] == l.log[k + i];
    QueueCounts(Limiter(p, l.log), cut, c.now);
    if Admits(l, c) {
      assert p + [c.now] == (l.log + [c.now])[k..];
    }
  }

  lemma {:induction false} OrderlyRun(calls: seq<Call>, now: nat)
    requires ClockOk(calls) && forall i :: 0 <= i < |calls| ==> calls[i].now <= now
    ensures Orderly(Run(calls), now)
    decreases |calls|
  {
    hide Step;
    if calls == [] {
    } else {
      var p, c := calls[..|calls| - 1], calls[|calls| - 1];
      OrderlyRun(p, c.now);
      OrderlyStep(Run(p), c.now, c);
      assert Cutoff(c.now) <= Cutoff(now);
    }
  }

  /** A call is deferred exactly when its budget is zero or the admissions of the closed window
      that ends at it already use the budget up. */
  lemma DefersIffWindowFull(calls: seq<Call>, j: nat)
    requires ClockOk(calls) && j < |calls|
    ensures var c, log := calls[j], Run(calls[..j]).log;
            !Admits(Run(calls[..j]), c) <==>
            c.budget == 0 || CountIn(log, if c.now <= 60 then 0 else c.now - 60, c.now) >= c.budget
  {
    hide Run, CountIn;
    OrderlyRun(calls[..j], calls[j].now);
    OrderlyStep(Run(calls[..j]), calls[j].now, calls[j]);
  }

  lemma {:induction false} LogGrows(calls: seq<Call>, j: nat)
    requires j <= |calls|
    ensures Run(calls[..j]).log <= Run(calls).log
    decreases |calls|
  {
    hide Admitting, Admits;
    if j == |calls| {
      assert calls[..j] == calls;
    } else {
      assert calls[..|calls| - 1][..j] == calls[..j];
      LogGrows(calls[..|calls| - 1], j);
    }
  }

  lemma {:induction false} CountNarrower(s: seq<nat>, lo: nat, hi: nat, lo': nat, hi': nat)
    requires lo' <= lo && forall i :: 0 <= i < |s| ==> s[i] <= hi'
    ensures CountIn(s, lo, hi) <= CountIn(s, lo', hi')
    decreases |s|
  {
    if s == [] {
    } else {
      CountNarrower(s[..|s| - 1], lo, hi, lo', hi');
    }
  }

  /** In every closed 60-second window the admissions stay within the budget of the last one. */
  lemma WindowWithinBudget(calls: seq<Call>, w: nat, j: nat)
    requires ClockOk(calls) && j < |calls| && Admits(Run(calls[..j]), calls[j])
    requires w <= calls[j].now <= w + 60
    requires var n := |Run(calls[..j + 1]).log|;
             forall i :: n <= i < |Run(calls).log| ==> !(w <= Run(calls).log[i] <= w + 60)
    ensures CountIn(Run(calls).log, w, w + 60) <= calls[j].budget
  {
    hide CountIn, Run, Pruned, Admitting;
    var c, hi, l := calls[j], w + WINDOW_SECS, Run(calls[..j]);
    var upTo, all := l.log + [c.now], Run(calls).log;
    LogStep(calls, j);
    LogGrows(calls, j + 1);
    var later := all[|upTo|..];
    assert all == upTo + later;
    CountConcat(upTo, later, w, hi);
    CountBounds(later, w, hi);
    OrderlyRun(calls[..j], c.now);
    OrderlyStep(l, c.now, c);
    CountNarrower(l.log, w, hi, Cutoff(c.now), c.now);
    CountConcat(l.log, [c.now], w, hi);
    CountBounds([c.now], w, hi);
  }

  lemma LogStep(calls: seq<Call>, j: nat)
    requires j < |calls| && Admits(Run(calls[..j]), calls[j])
    ensures Run(calls[..j + 1]).log == Run(calls[..j]).log + [calls[j].now]
  {
    hide Admits, Admitting;
    assert calls[..j + 1][..j] == calls[..j];
  }

  // ----- An arbitrary clock, one budget -----

  /** Even when the clock jumps, admissions stamped within 60 seconds of the largest time seen
      stay within a constant budget. */
  lemma RecentWithinBudget(calls: seq<Call>, budget: nat, latest: nat, hi: nat)
    requires forall i :: 0 <= i < |calls| ==> calls[i].budget == budget && calls[i].now <= latest
    ensures CountIn(Run(calls).log, if latest <= 60 then 0 else latest - 60, hi) <= budget
  {
    hide CountIn, Run;
    JumpyRun(calls, budget, latest);
    QueueCounts(Run(calls), Cutoff(latest), hi);
  }

  lemma {:induction false} JumpyRun(calls: seq<Call>, budget: nat, latest: nat)
    requires forall i :: 0 <= i < |calls| ==> calls[i].budget == budget && calls[i].now <= latest
    ensures |Run(calls).queue| <= budget && Suffix(Run(calls), Cutoff(latest))
    decreases |calls|
  {
    if calls == [] {
    } else {
      var p, c := calls[..|calls| - 1], calls[|calls| - 1];
      JumpyRun(p, budget, latest);
      JumpyStep(Run(p), c, latest);
    }
  }

  lemma JumpyStep(l: Limiter, c: Call, latest: nat)
    requires |l.queue| <= c.budget && Suffix(l, Cutoff(latest)) && c.now <= latest
    ensures |Step(l, c).queue| <= c.budget && Suffix(Step(l, c), Cutoff(latest))
  {
    var p := Pruned(l.queue, Cutoff(c.now));
    PruneTail(l.queue, l.log, Cutoff(c.now), Cutoff(latest));
    if Admits(l, c) {
      assert p + [c.now] == (l.log + [c.now])[|l.log| - |p|..];
    }
  }
}
