/**
  mapWithConcurrency (raxis-site/src/lib/docs.ts): workers sharing one counter, as a state
  machine over the points where a worker awaits.
 */
module WorkerPool {
  import opened Wrappers

  /** boundedInt over the parsed value, if the text parses to a finite number. */
  function BoundedInt(parsed: Option<int>, min: int, max: int, fallback: int): int {
    match parsed
    case None => fallback
    case Some(n) =>
      var raised := if n < min then min else n;
      if max < raised then max else raised
  }

  /** With the fallback in range every configuration yields a limit in range. */
  lemma LimitInRange(parsed: Option<int>, min: int, max: int, fallback: int)
    requires min <= fallback <= max
    ensures min <= BoundedInt(parsed, min, max, fallback) <= max
    ensures parsed.Some? && min <= parsed.value <= max ==> BoundedInt(parsed, min, max, fallback) == parsed.value
  {
  }

  /** The pool's limit: what is configured, between 1 and 12, and 6 if nothing is. */
  lemma ConfiguredLimit(parsed: Option<int>)
    ensures var limit := BoundedInt(parsed, MIN_CONCURRENCY, MAX_CONCURRENCY, DEFAULT_CONCURRENCY);
            && (parsed.None? ==> limit == 6)
            && (parsed.Some? && parsed.value < 1 ==> limit == 1)
            && (parsed.Some? && 1 <= parsed.value <= 12 ==> limit == parsed.value)
            && (parsed.Some? && parsed.value > 12 ==> limit == 12)
  {
  }

  const MIN_CONCURRENCY: int := 1
  const MAX_CONCURRENCY: int := 12
  const DEFAULT_CONCURRENCY: int := 6

  // ----- The pool -----

  /** Fresh: not yet run; Busy: awaiting the call for an index; Done and Rejected: settled. */
  datatype Worker = Fresh | Busy(index: nat) | Done | Rejected(index: nat)

  datatype State<U> = State(next: nat, claims: seq<nat>, workers: seq<Worker>, out: seq<Option<U>>)

  function Workers(items: nat, limit: nat): nat {
    if limit < items then limit else items
  }

  function Init<U>(items: nat, limit: nat): State<U> {
    State(0, [], seq(Workers(items, limit), _ => Fresh), seq(items, _ => None))
  }

  /** A worker runs to its first await, or the call it awaits resolves or rejects. */
  datatype Step = Start(w: nat) | Resolve(w: nat) | Reject(w: nat)

  predicate Enabled<U>(s: State<U>, step: Step) {
    && step.w < |s.workers|
    && (if step.Start? then s.workers[step.w].Fresh? else s.workers[step.w].Busy?)
  }

  /** The loop head: claim the next index and call, or finish. */
  function Claim<U>(s: State<U>, w: nat): State<U>
    requires w < |s.workers|
  {
    if s.next < |s.out| then
      s.(next := s.next + 1, claims := s.claims + [s.next], workers := s.workers[w := Busy(s.next)])
    else s.(workers := s.workers[w := Done])
  }

  function Next<T, U>(items: seq<T>, f: (T, nat) -> U, s: State<U>, step: Step): State<U>
    requires |s.out| == |items|
  {
    if !Enabled(s, step) then s
    else
      match step
      case Start(w) => Claim(s, w)
      case Reject(w) => s.(workers := s.workers[w := Rejected(s.workers[w].index)])
      case Resolve(w) =>
        var i := s.workers[w].index;
        if i < |items| then Claim(s.(out := s.out[i := Some(f(items[i], i))]), w) else s
  }

  function Run<T, U>(items: seq<T>, f: (T, nat) -> U, limit: nat, steps: seq<Step>): (s: State<U>)
    ensures |s.out| == |items|
  {
    if steps == [] then Init(|items|, limit)
    else Next(items, f, Run(items, f, limit, steps[..|steps| - 1]), steps[|steps| - 1])
  }

  // ----- What every step keeps -----

  /** Some worker holds index i. */
  ghost predicate HeldBy(ws: seq<Worker>, i: nat, w: nat) {
    w < |ws| && (ws[w] == Busy(i) || ws[w] == Rejected(i))
  }

  ghost predicate Held(ws: seq<Worker>, i: nat) {
    exists w: nat :: HeldBy(ws, i, w)
  }

  /** Indices are claimed in order, each once; a claimed index is with exactly one worker or has
      its result; nothing else is written. */
  ghost predicate Inv<T, U>(items: seq<T>, f: (T, nat) -> U, s: State<U>) {
    && s.next <= |items| && |s.out| == |items|
    && |s.claims| == s.next && (forall i :: 0 <= i < s.next ==> s.claims[i] == i)
    && (forall w: nat, i: nat :: HeldBy(s.workers, i, w) ==> i < s.next && s.out[i].None?)
    && (forall v: nat, w: nat, i: nat :: HeldBy(s.workers, i, v) && HeldBy(s.workers, i, w) ==> v == w)
    && (forall i: nat :: i < |items| ==>
          && (s.out[i].Some? ==> i < s.next && s.out[i].value == f(items[i], i))
          && (i < s.next && s.out[i].None? ==> Held(s.workers, i)))
    && (forall w :: 0 <= w < |s.workers| && s.workers[w].Done? ==> s.next == |items|)
  }

  lemma InvInit<T, U>(items: seq<T>, f: (T, nat) -> U, limit: nat)
    ensures Inv(items, f, Init(|items|, limit))
  {
  }

  /** A worker that holds nothing claims. */
  lemma InvClaim<T, U>(items: seq<T>, f: (T, nat) -> U, s: State<U>, w: nat)
    requires Inv(items, f, s) && w < |s.workers| && s.workers[w].Fresh?
    ensures Inv(items, f, Claim(s, w))
  {
    var s' := Claim(s, w);
    forall v, i
      ensures HeldBy(s'.workers, i, v) <==> HeldBy(s.workers, i, v) || (s.next < |items| && v == w && i == s.next)
    {
    }
    forall i | 0 <= i < |items| && i < s'.next && s'.out[i].None? ensures Held(s'.workers, i) {
      if i == s.next {
        assert HeldBy(s'.workers, i, w);
      } else {
        var v :| HeldBy(s.workers, i, v);
        assert HeldBy(s'.workers, i, v);
      }
    }
  }

  /** Releasing an index with its result leaves the worker free to claim. */
  lemma InvRelease<T, U>(items: seq<T>, f: (T, nat) -> U, s: State<U>, w: nat)
    requires Inv(items, f, s) && w < |s.workers| && s.workers[w].Busy?
    ensures var i := s.workers[w].index;
            i < |items| && Inv(items, f, s.(out := s.out[i := Some(f(items[i], i))], workers := s.workers[w := Fresh]))
  {
    var k := s.workers[w].index;
    assert HeldBy(s.workers, k, w);
    var s' := s.(out := s.out[k := Some(f(items[k], k))], workers := s.workers[w := Fresh]);
    forall v, i ensures HeldBy(s'.workers, i, v) <==> HeldBy(s.workers, i, v) && v != w {
    }
    forall v, i | HeldBy(s'.workers, i, v) ensures i != k {
    }
    forall i | 0 <= i < |items| && i < s'.next && s'.out[i].None? ensures Held(s'.workers, i) {
      var v :| HeldBy(s.workers, i, v);
      assert HeldBy(s'.workers, i, v);
    }
  }

  lemma InvStep<T, U>(items: seq<T>, f: (T, nat) -> U, s: State<U>, step: Step)
    requires Inv(items, f, s)
    ensures Inv(items, f, Next(items, f, s, step))
  {
    if Enabled(s, step) {
      match step
      case Start(w) => InvClaim(items, f, s, w);
      case Resolve(w) =>
        InvRelease(items, f, s, w);
        var i := s.workers[w].index;
        var r := s.(out := s.out[i := Some(f(items[i], i))], workers := s.workers[w := Fresh]);
        hide Inv;
        InvClaim(items, f, r, w);
        assert r.workers[w := Done] == s.workers[w := Done];
        assert r.workers[w := Busy(s.next)] == s.workers[w := Busy(s.next)];
      case Reject(w) => InvReject(items, f, s, w);
    }
  }

  lemma InvReject<T, U>(items: seq<T>, f: (T, nat) -> U, s: State<U>, w: nat)
    requires Inv(items, f, s) && w < |s.workers| && s.workers[w].Busy?
    ensures Inv(items, f, s.(workers := s.workers[w := Rejected(s.workers[w].index)]))
  {
    var s' := s.(workers := s.workers[w := Rejected(s.workers[w].index)]);
    forall v, i ensures HeldBy(s'.workers, i, v) <==> HeldBy(s.workers, i, v) {
    }
    forall i | Held(s.workers, i) ensures Held(s'.workers, i) {
      var v :| HeldBy(s.workers, i, v);
      assert HeldBy(s'.workers, i, v);
    }
  }

  lemma {:induction false} InvAlways<T, U>(items: seq<T>, f: (T, nat) -> U, limit: nat, steps: seq<Step>)
    ensures Inv(items, f, Run(items, f, limit, steps))
    ensures |Run(items, f, limit, steps).workers| == Workers(|items|, limit)
    decreases |steps|
  {
    hide Inv;
    if steps == [] {
      InvInit(items, f, limit);
    } else {
      InvAlways(items, f, limit, steps[..|steps| - 1]);
      InvStep(items, f, Run(items, f, limit, steps[..|steps| - 1]), steps[|steps| - 1]);
    }
  }

  // ----- Results -----

  predicate Settled(w: Worker) {
    w.Done? || w.Rejected?
  }

  function SequentialMap<T, U>(items: seq<T>, f: (T, nat) -> U): seq<Option<U>> {
    seq(|items|, i requires 0 <= i < |items| => Some(f(items[i], i)))
  }

  /** After any completion order: every index below the counter was claimed exactly once, in
      order, at most `limit` calls are outstanding, and they are for different indices. */
  lemma ClaimsAndOutstanding<T, U>(items: seq<T>, f: (T, nat) -> U, limit: nat, steps: seq<Step>)
    ensures var s := Run(items, f, limit, steps);
            && s.claims == seq(s.next, i => i) && |s.workers| <= limit
            && forall v, w :: 0 <= v < w < |s.workers| && s.workers[v].Busy? && s.workers[w].Busy? ==>
                                s.workers[v].index != s.workers[w].index
  {
    hide Run;
    InvAlways(items, f, limit, steps);
    var s := Run(items, f, limit, steps);
    forall v, w | 0 <= v < w < |s.workers| && s.workers[v].Busy? && s.workers[w].Busy?
      ensures s.workers[v].index != s.workers[w].index
    {
      assert HeldBy(s.workers, s.workers[v].index, v) && HeldBy(s.workers, s.workers[w].index, w);
    }
  }

  /** When all workers are done, none by rejection, the result is the sequential map. */
  lemma DoneIsSequentialMap<T, U>(items: seq<T>, f: (T, nat) -> U, limit: nat, steps: seq<Step>)
    requires limit >= 1
    requires forall w :: 0 <= w < |Run(items, f, limit, steps).workers| ==> Run(items, f, limit, steps).workers[w].Done?
    ensures Run(items, f, limit, steps).out == SequentialMap(items, f)
  {
    hide Run;
    InvAlways(items, f, limit, steps);
    var s := Run(items, f, limit, steps);
    assert |items| > 0 ==> s.workers[0].Done? && s.next == |items|;
    assert forall w: nat, i: nat :: !HeldBy(s.workers, i, w);
    assert forall i: nat :: !Held(s.workers, i);
  }

  // ----- Progress -----

  function Weight(ws: seq<Worker>): nat {
    if ws == [] then 0
    else Weight(ws[..|ws| - 1]) + Cost(ws[|ws| - 1])
  }

  function Cost(w: Worker): nat {
    match w case Fresh => 2 case Busy(_) => 1 case _ => 0
  }

  lemma {:induction false} WeightUpdate(ws: seq<Worker>, w: nat, x: Worker)
    requires w < |ws|
    ensures Weight(ws[w := x]) + Cost(ws[w]) == Weight(ws) + Cost(x)
    decreases |ws|
  {
    var n := |ws| - 1;
    if w == n {
      assert ws[w := x][..n] == ws[..n];
    } else {
      assert ws[w := x][..n] == ws[..n][w := x];
      WeightUpdate(ws[..n], w, x);
    }
  }

  function Measure<U>(s: State<U>): nat
    requires s.next <= |s.out|
  {
    2 * (|s.out| - s.next) + Weight(s.workers)
  }

  /** Every enabled step makes progress, so every schedule settles all workers. */
  lemma StepsEnd<T, U>(items: seq<T>, f: (T, nat) -> U, s: State<U>, step: Step)
    requires Inv(items, f, s) && Enabled(s, step)
    ensures Next(items, f, s, step).next <= |items| && Measure(Next(items, f, s, step)) < Measure(s)
  {
    InvStep(items, f, s, step);
    var s', w := Next(items, f, s, step), step.w;
    if s.workers[w].Busy? {
      assert HeldBy(s.workers, s.workers[w].index, w);
    }
    assert s'.workers == s.workers[w := s'.workers[w]];
    WeightUpdate(s.workers, w, s'.workers[w]);
  }

  /** A state without an enabled step has settled every worker. */
  lemma StuckIsSettled<U>(s: State<U>)
    requires forall step :: !Enabled(s, step)
    ensures forall w :: 0 <= w < |s.workers| ==> Settled(s.workers[w])
  {
    forall w | 0 <= w < |s.workers| ensures Settled(s.workers[w]) {
      assert !Enabled(s, Start(w)) && !Enabled(s, Resolve(w));
    }
  }

  lemma {:induction false} NoneRejected<T, U>(items: seq<T>, f: (T, nat) -> U, limit: nat, steps: seq<Step>)
    requires forall i :: 0 <= i < |steps| ==> !steps[i].Reject?
    ensures forall w :: 0 <= w < |Run(items, f, limit, steps).workers| ==>
              !Run(items, f, limit, steps).workers[w].Rejected?
    decreases |steps|
  {
    if steps == [] {
    } else {
      NoneRejected(items, f, limit, steps[..|steps| - 1]);
    }
  }

  /** Under any configured limit, a schedule that no longer moves and in which no call rejected
      has produced the sequential map, in input order. */
  lemma CompletedIsSequentialMap<T, U>(items: seq<T>, f: (T, nat) -> U, parsed: Option<int>, steps: seq<Step>)
    requires forall i :: 0 <= i < |steps| ==> !steps[i].Reject?
    requires var limit := BoundedInt(parsed, MIN_CONCURRENCY, MAX_CONCURRENCY, DEFAULT_CONCURRENCY);
             forall step :: !Enabled(Run(items, f, limit, steps), step)
    ensures var limit := BoundedInt(parsed, MIN_CONCURRENCY, MAX_CONCURRENCY, DEFAULT_CONCURRENCY);
            1 <= limit <= 12 && Run(items, f, limit, steps).out == SequentialMap(items, f)
  {
    hide Run, SequentialMap, BoundedInt;
    LimitInRange(parsed, MIN_CONCURRENCY, MAX_CONCURRENCY, DEFAULT_CONCURRENCY);
    var limit := BoundedInt(parsed, MIN_CONCURRENCY, MAX_CONCURRENCY, DEFAULT_CONCURRENCY);
    NoneRejected(items, f, limit, steps);
    StuckIsSettled(Run(items, f, limit, steps));
    DoneIsSequentialMap(items, f, limit, steps);
  }
}
