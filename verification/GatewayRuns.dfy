/** What holds of every run of the gateway, and that outstanding work can always be drained. */
module GatewayRuns {
  import opened Wrappers
  import opened Dispatch
  import opened DispatchAnswers
  import opened Gateway
  import opened GatewaySafety

  // ----- Every interleaving -----

  /** After any interleaving: permits and live tasks add up, the channel is bounded, and each
      written response is either an overload refusal or what sequential dispatch gives under
      the view fixed by the frames before the request. */
  lemma EveryAnswerIsSequential(c: Config, steps: seq<Step>)
    ensures var s := After(c, Init(c), steps);
            && s.permits + |s.tasks| == 512 && |s.queue| <= 1024
            && forall i :: 0 <= i < |s.written| ==>
                 var e := s.written[i];
                 && IsFetch(c, e.pos) && e.pos < s.pos
                 && (e.pos !in s.refused ==>
                       e.resp == HandleFetch(c.env, e.pos, c.input[e.pos].req, ViewAt(c, e.pos)))
                 && (e.pos in s.refused ==> e.resp == Overloaded(c.input[e.pos].req))
  {
    hide After, HandleFetch, ViewAt, Conserved, Snapshots;
    InvAlways(c, steps);
    var s := After(c, Init(c), steps);
    forall i | 0 <= i < |s.written| ensures Honest(c, s, s.written[i]) {
    }
  }

  /** Every response that is ever written echoes the id of its request and is either an error
      without payload or a full answer. */
  lemma WrittenShape(c: Config, steps: seq<Step>, i: nat)
    requires i < |After(c, Init(c), steps).written|
    ensures var e := After(c, Init(c), steps).written[i];
            IsFetch(c, e.pos) && e.resp.fetchId == c.input[e.pos].req.fetchId && WellShaped(e.resp)
  {
    hide After, HandleFetch, ViewAt;
    EveryAnswerIsSequential(c, steps);
    var e := After(c, Init(c), steps).written[i];
    AnswerShape(c.env, e.pos, c.input[e.pos].req, ViewAt(c, e.pos));
  }

  /** Every response that is ever written, field by field: the overload refusal, or the response
      that the gates and the backend fix under the view of the last reload before the request. */
  lemma WrittenIs(c: Config, steps: seq<Step>, i: nat)
    requires i < |After(c, Init(c), steps).written|
    ensures var s := After(c, Init(c), steps);
            var e := s.written[i];
            && IsFetch(c, e.pos)
            && var req := c.input[e.pos].req;
               if e.pos in s.refused then e.resp == FetchResponse(req.fetchId, None, [], None, 0, Some("NetworkError"))
               else IsResponse(c.env, e.pos, req, ViewAt(c, e.pos), e.resp)
  {
    hide After, HandleFetch, ViewAt, IsResponse;
    EveryAnswerIsSequential(c, steps);
    var e := After(c, Init(c), steps).written[i];
    AnswerIs(c.env, e.pos, c.input[e.pos].req, ViewAt(c, e.pos));
  }

  /** A gateway in the same surroundings but for the backend. */
  ghost predicate SameButBackend(c: Config, d: Config) {
    d.input == c.input && d.initial == c.initial && d.env.token == c.env.token && d.env.lower == c.env.lower
  }

  lemma {:induction false} SameViews(c: Config, d: Config, n: nat)
    requires SameButBackend(c, d) && n <= |c.input|
    ensures ViewAt(d, n) == ViewAt(c, n)
  {
    if n == 0 {
    } else {
      SameViews(c, d, n - 1);
    }
  }

  /** A request that a gate refuses gets the same answer in every interleaving and under every
      backend: what the backends do to other requests cannot reach it. */
  lemma RefusalsIgnoreBackends(c: Config, d: Config, steps: seq<Step>, other: seq<Step>, i: nat, j: nat)
    requires SameButBackend(c, d)
    requires i < |After(c, Init(c), steps).written| && j < |After(d, Init(d), other).written|
    requires After(c, Init(c), steps).written[i].pos == After(d, Init(d), other).written[j].pos
    requires var p := After(c, Init(c), steps).written[i].pos;
             && p !in After(c, Init(c), steps).refused && p !in After(d, Init(d), other).refused
             && IsFetch(c, p) && Admit(c.env, c.input[p].req, ViewAt(c, p)).Err?
    ensures After(d, Init(d), other).written[j].resp == After(c, Init(c), steps).written[i].resp
  {
    hide After, HandleFetch, ViewAt, Admit;
    EveryAnswerIsSequential(c, steps);
    EveryAnswerIsSequential(d, other);
    var p := After(c, Init(c), steps).written[i].pos;
    SameViews(c, d, p);
    RefusalIgnoresBackend(c.env, d.env, p, c.input[p].req, ViewAt(c, p));
  }

  /** No request is ever answered twice. */
  lemma NeverAnsweredTwice(c: Config, steps: seq<Step>, i: nat, j: nat)
    requires i < j < |After(c, Init(c), steps).written|
    ensures After(c, Init(c), steps).written[i].pos != After(c, Init(c), steps).written[j].pos
  {
    hide After, Bounded, Snapshots, AllHonest, Count;
    InvAlways(c, steps);
    var s := After(c, Init(c), steps);
    CountTwo(s.written, i, j);
    assert Held(s, s.written[i].pos) <= Requested(c, s, s.written[i].pos);
  }

  lemma {:induction false} CountOne(es: seq<Envelope>, i: nat)
    requires i < |es|
    ensures Count(es, es[i].pos) >= 1
    decreases |es|
  {
    if i == 0 {
    } else {
      CountOne(es[1..], i - 1);
    }
  }

  lemma {:induction false} CountTwo(es: seq<Envelope>, i: nat, j: nat)
    requires i < j < |es|
    ensures es[i].pos == es[j].pos ==> Count(es, es[i].pos) >= 2
    decreases |es|
  {
    if i > 0 {
      CountTwo(es[1..], i - 1, j - 1);
    } else {
      CountOne(es[1..], j - 1);
    }
  }

  // ----- Concurrency only permutes -----

  /** Nothing is outstanding: every response is with the kernel. */
  predicate Drained(s: State) {
    s.tasks == map[] && s.queue == [] && !s.reader.Refusing? && !s.writer.Writing?
  }

  function PositionsOf(es: seq<Envelope>): seq<nat> {
    seq(|es|, i requires 0 <= i < |es| => es[i].pos)
  }

  lemma {:induction false} CountIsMultiplicity(es: seq<Envelope>, p: nat)
    ensures multiset(PositionsOf(es))[p] == Count(es, p)
    decreases |es|
  {
    if es != [] {
      CountIsMultiplicity(es[1..], p);
      assert PositionsOf(es) == [es[0].pos] + PositionsOf(es[1..]);
    } else {
      assert PositionsOf(es) == [];
    }
  }

  function Times(s: seq<nat>, p: nat): nat {
    multiset(s)[p]
  }

  lemma TimesAppend(s: seq<nat>, t: seq<nat>, p: nat)
    requires |t| <= 1
    ensures Times(s + t, p) == Times(s, p) + if t != [] && t[0] == p then 1 else 0
  {
  }

  function LastFetch(c: Config, n: nat): seq<nat>
    requires 0 < n <= |c.input|
  {
    if c.input[n - 1].Fetch? then [n - 1] else []
  }

  lemma FetchesLast(c: Config, n: nat)
    requires 0 < n <= |c.input|
    ensures Fetches(c, n) == Fetches(c, n - 1) + LastFetch(c, n)
  {
  }

  lemma {:induction false} FetchesAreDistinct(c: Config, n: nat, p: nat)
    requires n <= |c.input|
    ensures Times(Fetches(c, n), p) == if IsFetch(c, p) && p < n then 1 else 0
  {
    if n == 0 {
      assert Fetches(c, n) == [];
    } else {
      hide Fetches, Times, LastFetch;
      FetchesAreDistinct(c, n - 1, p);
      FetchesLast(c, n);
      LastFetchIs(c, n, p);
      TimesAppend(Fetches(c, n - 1), LastFetch(c, n), p);
    }
  }

  lemma LastFetchIs(c: Config, n: nat, p: nat)
    requires 0 < n <= |c.input|
    ensures |LastFetch(c, n)| <= 1
    ensures LastFetch(c, n) != [] && LastFetch(c, n)[0] == p <==> p == n - 1 && IsFetch(c, p)
  {
  }

  /** Answering a permutation of positions permutes the answers. */
  lemma {:induction false} AnswersPermute(c: Config, refused: set<nat>, p: seq<nat>, q: seq<nat>)
    requires multiset(p) == multiset(q)
    requires forall i :: 0 <= i < |p| ==> IsFetch(c, p[i])
    requires forall i :: 0 <= i < |q| ==> IsFetch(c, q[i])
    ensures multiset(Answers(c, refused, p)) == multiset(Answers(c, refused, q))
    decreases |p|
  {
    hide Answer, IsFetch, Answers;
    assert |p| == |multiset(p)| == |multiset(q)| == |q|;
    if p == [] {
      assert q == [];
    } else {
      assert p[0] in multiset(p);
      var i :| 0 <= i < |q| && q[i] == p[0];
      var p', q' := p[..0] + p[1..], q[..i] + q[i + 1..];
      assert multiset(p') == multiset(q') by {
        RemoveAt(p, 0);
        RemoveAt(q, i);
      }
      AnswersPermute(c, refused, p', q');
      AnswersSplit(c, refused, p, 0);
      AnswersSplit(c, refused, q, i);
    }
  }

  lemma RemoveAt(q: seq<nat>, i: nat)
    requires i < |q|
    ensures multiset(q[..i] + q[i + 1..]) == multiset(q) - multiset{q[i]}
  {
    assert q == q[..i] + [q[i]] + q[i + 1..];
  }

  lemma AnswersSplit(c: Config, refused: set<nat>, q: seq<nat>, i: nat)
    requires i < |q| && forall k :: 0 <= k < |q| ==> IsFetch(c, q[k])
    ensures multiset(Answers(c, refused, q)) ==
            multiset(Answers(c, refused, q[..i] + q[i + 1..])) + multiset{Answer(c, refused, q[i])}
  {
    hide Answer, IsFetch;
    var all := Answers(c, refused, q);
    assert all == all[..i] + [all[i]] + all[i + 1..];
    assert Answers(c, refused, q[..i] + q[i + 1..]) == all[..i] + all[i + 1..];
  }

  /** Once drained, with the writer alive, what was written is a permutation of what the
      sequential gateway writes for the frames read. */
  lemma DrainedIsSequential(c: Config, steps: seq<Step>)
    requires Drained(After(c, Init(c), steps)) && !After(c, Init(c), steps).writer.Failed?
    ensures var s := After(c, Init(c), steps);
            s.pos <= |c.input| && multiset(s.written) == multiset(Sequential(c, s.refused, s.pos))
  {
    hide After, Answer, Bounded, IsFetch;
    InvAlways(c, steps);
    var s := After(c, Init(c), steps);
    assert s.pos <= |c.input| && AllHonest(c, s) && Conserved(c, s);
    DrainedPositions(c, s);
    var ps := PositionsOf(s.written);
    AnswersPermute(c, s.refused, ps, Fetches(c, s.pos));
    assert Answers(c, s.refused, ps) == s.written;
  }

  lemma DrainedPositions(c: Config, s: State)
    requires s.pos <= |c.input| && AllHonest(c, s) && Conserved(c, s) && Drained(s) && !s.writer.Failed?
    ensures multiset(PositionsOf(s.written)) == multiset(Fetches(c, s.pos))
    ensures forall i :: 0 <= i < |PositionsOf(s.written)| ==>
              IsFetch(c, PositionsOf(s.written)[i]) && s.written[i] == Answer(c, s.refused, PositionsOf(s.written)[i])
  {
    hide Answer, IsFetch, Fetches;
    forall p: nat ensures multiset(PositionsOf(s.written))[p] == multiset(Fetches(c, s.pos))[p] {
      CountIsMultiplicity(s.written, p);
      FetchesAreDistinct(c, s.pos, p);
      assert Held(s, p) == Requested(c, s, p);
      assert Count(s.queue, p) == 0;
    }
    forall i | 0 <= i < |s.written|
      ensures IsFetch(c, s.written[i].pos) && s.written[i] == Answer(c, s.refused, s.written[i].pos)
    {
      assert Honest(c, s, s.written[i]);
    }
  }

  // ----- Draining -----

  function Running(s: State): set<nat> {
    set k | k in s.tasks && s.tasks[k].resp.None?
  }

  function Weight(s: State): nat {
    |Running(s)| + 3 * |s.tasks| + (if s.reader.Refusing? then 3 else 0) + 2 * |s.queue|
    + (if s.writer.Writing? then 1 else 0)
  }

  /** A step that works off what is outstanding. */
  predicate Works(step: Step) {
    !step.Read? && !step.StopReading? && !step.Finish?
  }

  /** Every such step makes progress, whatever the schedule. */
  lemma WorkLowersWeight(c: Config, s: State, step: Step)
    requires Enabled(c, s, step) && Works(step)
    ensures var s' := Next(c, s, step);
            Weight(s') < Weight(s) && s'.pos == s.pos && s'.refused == s.refused
  {
    hide HandleFetch, Running, Weight, Next;
    if step.Run? || step.Deliver? {
      TaskLowersWeight(c, s, step, step.k);
    } else {
      ChannelLowersWeight(c, s, step);
    }
  }

  lemma TaskLowersWeight(c: Config, s: State, step: Step, k: nat)
    requires Enabled(c, s, step) && (step == Run(k) || step == Deliver(k))
    ensures var s' := Next(c, s, step);
            Weight(s') < Weight(s) && s'.pos == s.pos && s'.refused == s.refused
  {
    hide HandleFetch, Running;
    var s' := Next(c, s, step);
    if step.Run? {
      TaskUpdated(s.tasks, k, s'.tasks[k]);
      RunningShrinks(s, s', k);
    } else {
      TaskRemoved(s.tasks, k);
      RunningStays(s, s', k);
    }
  }

  lemma ChannelLowersWeight(c: Config, s: State, step: Step)
    requires Enabled(c, s, step) && Works(step) && !step.Run? && !step.Deliver?
    ensures var s' := Next(c, s, step);
            Weight(s') < Weight(s) && s'.pos == s.pos && s'.refused == s.refused
  {
    hide HandleFetch, Running;
    SameTasks(s, Next(c, s, step));
  }

  lemma SameTasks(s: State, s': State)
    requires s'.tasks == s.tasks
    ensures Running(s') == Running(s)
  {
  }

  /** The step a drain takes next: write, receive, send the refusal, finish a task. */
  lemma DrainStep(c: Config, s: State) returns (step: Step)
    requires Inv(c, s) && !s.writer.Failed? && !Drained(s)
    ensures Works(step) && !step.WriteFail? && Enabled(c, s, step) && !Next(c, s, step).writer.Failed?
  {
    hide HandleFetch, ViewAt, Answer, Held, Requested, AllHonest, Bounded;
    if s.writer.Writing? {
      step := WriteOk;
    } else if s.queue != [] {
      step := Receive;
    } else if s.reader.Refusing? {
      step := SendRefusal;
    } else {
      assert s.tasks.Keys != {};
      var k :| k in s.tasks;
      TaskIsFetch(c, s, k);
      step := if s.tasks[k].resp.None? then Run(k) else Deliver(k);
    }
  }

  /** A state with a live writer in which nothing outstanding can move has nothing outstanding. */
  lemma StuckIsDrained(c: Config, s: State)
    requires Inv(c, s) && !s.writer.Failed?
    requires forall step :: Enabled(c, s, step) ==> !Works(step) || step.WriteFail?
    ensures Drained(s)
  {
    hide Inv, Enabled, Next;
    if !Drained(s) {
      var step := DrainStep(c, s);
    }
  }

  lemma TaskIsFetch(c: Config, s: State, k: nat)
    requires Snapshots(c, s) && k in s.tasks
    ensures IsFetch(c, k)
  {
    hide ViewAt, Answer;
  }

  lemma RunningShrinks(s: State, s': State, k: nat)
    requires k in s.tasks && s.tasks[k].resp.None?
    requires exists t: Task :: t.resp.Some? && s'.tasks == s.tasks[k := t]
    ensures |Running(s')| < |Running(s)|
  {
    assert Running(s') == Running(s) - {k};
  }

  lemma RunningStays(s: State, s': State, k: nat)
    requires k in s.tasks && s.tasks[k].resp.Some? && s'.tasks == s.tasks - {k}
    ensures |Running(s')| == |Running(s)|
  {
    assert Running(s') == Running(s);
  }

  lemma {:induction false} AfterAppend(c: Config, s: State, step: Step, steps: seq<Step>)
    ensures After(c, s, [step] + steps) == After(c, Next(c, s, step), steps)
    decreases |steps|
  {
    hide Next;
    var all := [step] + steps;
    if steps == [] {
      assert all == [step] && all[..0] == [];
      assert After(c, s, all) == Next(c, After(c, s, []), step);
    } else {
      assert all[..|all| - 1] == [step] + steps[..|steps| - 1];
      AfterAppend(c, s, step, steps[..|steps| - 1]);
    }
  }

  /** From every invariant state with a live writer, finitely many task and writer steps drain
      the gateway without reading another frame. */
  lemma {:induction false} Drain(c: Config, s: State) returns (steps: seq<Step>)
    requires Inv(c, s) && !s.writer.Failed?
    ensures forall i :: 0 <= i < |steps| ==> !steps[i].Read? && !steps[i].WriteFail? && !steps[i].StopReading?
    ensures var t := After(c, s, steps);
            Drained(t) && !t.writer.Failed? && t.pos == s.pos && t.refused == s.refused
    decreases Weight(s)
  {
    hide Inv, Next, Weight;
    if Drained(s) {
      steps := [];
    } else {
      var step := DrainStep(c, s);
      WorkLowersWeight(c, s, step);
      InvStep(c, s, step);
      var rest := Drain(c, Next(c, s, step));
      AfterAppend(c, s, step, rest);
      steps := [step] + rest;
    }
  }

  /** Every run with a live writer extends to one that has answered all it has read. */
  lemma EverythingCanBeAnswered(c: Config, steps: seq<Step>) returns (more: seq<Step>)
    requires !After(c, Init(c), steps).writer.Failed?
    ensures forall i :: 0 <= i < |more| ==> !more[i].Read? && !more[i].WriteFail? && !more[i].StopReading?
    ensures var s, t := After(c, Init(c), steps), After(c, Init(c), steps + more);
            && t.pos == s.pos && t.refused == s.refused && s.pos <= |c.input|
            && multiset(t.written) == multiset(Sequential(c, s.refused, s.pos))
  {
    hide Inv, Next, Drained, Sequential;
    InvAlways(c, steps);
    var s := After(c, Init(c), steps);
    more := Drain(c, s);
    AfterConcat(c, Init(c), steps, more);
    DrainedIsSequential(c, steps + more);
  }

  lemma {:induction false} AfterConcat(c: Config, s: State, steps: seq<Step>, more: seq<Step>)
    ensures After(c, s, steps + more) == After(c, After(c, s, steps), more)
    decreases |more|
  {
    hide Next;
    var all := steps + more;
    if more == [] {
      assert all == steps;
    } else {
      assert all[..|all| - 1] == steps + more[..|more| - 1];
      AfterConcat(c, s, steps, more[..|more| - 1]);
    }
  }

  // ----- Overload -----

  ghost predicate LoadedBeforeRefusal(c: Config, s: State) {
    forall k :: k in s.refused ==> k <= |c.input| && |Fetches(c, k)| >= 512
  }

  lemma LoadedStep(c: Config, s: State, step: Step)
    requires Inv(c, s) && LoadedBeforeRefusal(c, s)
    ensures LoadedBeforeRefusal(c, Next(c, s, step))
  {
    hide HandleFetch, ViewAt, Answer, AllHonest, Held, Fetches;
    if Enabled(c, s, step) && step.Read? && s.permits == 0 {
      TasksAreFetches(c, s);
    }
  }

  lemma TasksAreFetches(c: Config, s: State)
    requires Snapshots(c, s)
    ensures |s.tasks| <= |Fetches(c, s.pos)|
  {
    hide ViewAt, Answer;
    var ps := Fetches(c, s.pos);
    assert s.tasks.Keys <= set i | 0 <= i < |ps| :: ps[i] by {
      forall k | k in s.tasks ensures k in ps {
        FetchesAreDistinct(c, s.pos, k);
        assert k in multiset(ps);
      }
    }
    SetOfSeq(ps, s.tasks.Keys);
  }

  lemma {:induction false} SetOfSeq(ps: seq<nat>, ks: set<nat>)
    requires forall k :: k in ks ==> k in ps
    ensures |ks| <= |ps|
    decreases |ps|
  {
    if ps != [] {
      var rest := ks - {ps[0]};
      forall k | k in rest ensures k in ps[1..] {
        assert k in ps;
      }
      SetOfSeq(ps[1..], rest);
    } else {
      assert ks == {};
    }
  }

  /** A refusal happens only behind 512 earlier requests. */
  lemma {:induction false} RefusalNeedsLoad(c: Config, steps: seq<Step>)
    ensures LoadedBeforeRefusal(c, After(c, Init(c), steps))
  {
    hide Inv, Next, Fetches;
    if steps == [] {
    } else {
      RefusalNeedsLoad(c, steps[..|steps| - 1]);
      InvAlways(c, steps[..|steps| - 1]);
      LoadedStep(c, After(c, Init(c), steps[..|steps| - 1]), steps[|steps| - 1]);
    }
  }

  lemma {:induction false} FetchesGrow(c: Config, m: nat, n: nat)
    requires m <= n <= |c.input|
    ensures |Fetches(c, m)| <= |Fetches(c, n)|
    ensures m < n && IsFetch(c, m) ==> |Fetches(c, m)| < |Fetches(c, n)|
    decreases n
  {
    if m == n {
    } else {
      FetchesGrow(c, m, n - 1);
    }
  }

  /** With at most 512 requests in the input nothing is refused, so a drained run writes a
      permutation of plain sequential dispatch. */
  lemma FewRequestsNeverRefused(c: Config, steps: seq<Step>)
    requires |Fetches(c, |c.input|)| <= 512
    ensures After(c, Init(c), steps).refused == {}
  {
    hide After, Fetches, HandleFetch, ViewAt, Answer, Conserved, AllHonest;
    RefusalNeedsLoad(c, steps);
    InvAlways(c, steps);
    var s := After(c, Init(c), steps);
    forall k | k in s.refused ensures false {
      FetchesGrow(c, k, |c.input|);
    }
  }

  // ----- Policy reloads -----

  /** The view is that of the last reload, or the initial one. */
  lemma {:induction false} ViewIsLastReload(c: Config, k: nat, n: nat)
    requires k < n <= |c.input| && c.input[k].EpochAdvanced?
    requires forall i :: k < i < n ==> !c.input[i].EpochAdvanced?
    ensures ViewAt(c, n) == c.input[k].reload
    decreases n
  {
    if k == n - 1 {
    } else {
      ViewIsLastReload(c, k, n - 1);
    }
  }

  /** Before any reload the view is the initial one. */
  lemma {:induction false} ViewIsInitial(c: Config, n: nat)
    requires n <= |c.input| && forall i :: 0 <= i < n ==> !c.input[i].EpochAdvanced?
    ensures ViewAt(c, n) == Some(c.initial)
  {
    if n == 0 {
    } else {
      ViewIsInitial(c, n - 1);
    }
  }

  /** A failed reload leaves no view until a reload succeeds. */
  lemma {:induction false} NoViewAfterFailure(c: Config, k: nat, n: nat)
    requires k < n <= |c.input| && c.input[k] == EpochAdvanced(None)
    requires forall j :: k < j < n && c.input[j].EpochAdvanced? ==> c.input[j].reload.None?
    ensures ViewAt(c, n).None?
    decreases n
  {
    if k == n - 1 {
      assert c.input[n - 1].reload.None?;
    } else {
      NoViewAfterFailure(c, k, n - 1);
    }
  }

  /** After a failed reload, and until a reload succeeds, every request is answered without the
      backend: with PolicyReloadFailed, or InvalidToken for a wrong token. */
  lemma FailedReloadClosesGateway(c: Config, k: nat, n: nat, steps: seq<Step>, i: nat)
    requires k < n < |c.input| && c.input[k] == EpochAdvanced(None) && IsFetch(c, n)
    requires forall j :: k < j < n && c.input[j].EpochAdvanced? ==> c.input[j].reload.None?
    requires i < |After(c, Init(c), steps).written| && After(c, Init(c), steps).written[i].pos == n
    requires n !in After(c, Init(c), steps).refused
    ensures var req := c.input[n].req;
            After(c, Init(c), steps).written[i].resp ==
            ErrorResponse(req.fetchId, if req.token == c.env.token then PolicyReloadFailed else InvalidToken)
  {
    hide After, ViewAt, IsUrlAllowed, ProviderForHost, HostOf;
    EveryAnswerIsSequential(c, steps);
    NoViewAfterFailure(c, k, n);
  }

  // ----- Accounting -----

  /** While the writer lives, the request at a position that has been read is in exactly one
      place: in a task, with the reader, queued, with the writer, or written.  No other position
      is anywhere. */
  lemma EveryRequestAccountedFor(c: Config, steps: seq<Step>, p: nat)
    ensures var s := After(c, Init(c), steps);
            var places := WithTask(s, p) + WithReader(s.reader, p) + Count(s.queue, p)
                          + WithWriter(s.writer, p) + Count(s.written, p);
            && places <= (if IsFetch(c, p) && p < s.pos then 1 else 0)
            && (!s.writer.Failed? ==> places == if IsFetch(c, p) && p < s.pos then 1 else 0)
  {
    hide After, Bounded, Snapshots, AllHonest, Count;
    InvAlways(c, steps);
    var s := After(c, Init(c), steps);
    assert Held(s, p) <= Requested(c, s, p);
    assert !s.writer.Failed? ==> Held(s, p) == Requested(c, s, p);
  }

  // ----- The channel -----

  /** While the writer lives, a finished task and a refusal wait exactly while 1024 responses are
      queued; a task never waits for its dispatch. */
  lemma ChannelRoom(c: Config, s: State, k: nat)
    requires Inv(c, s) && Open(s)
    ensures k in s.tasks && s.tasks[k].resp.Some? ==> (Enabled(c, s, Deliver(k)) <==> |s.queue| != 1024)
    ensures s.reader.Refusing? ==> (Enabled(c, s, SendRefusal) <==> |s.queue| != 1024)
    ensures k in s.tasks && s.tasks[k].resp.None? ==> Enabled(c, s, Run(k))
  {
    hide HandleFetch, ViewAt, Held, Requested;
    if k in s.tasks {
      TaskIsFetch(c, s, k);
    }
  }

  /** The next frame is refused exactly when 512 tasks are live. */
  lemma RefusedIff(c: Config, s: State)
    requires Inv(c, s) && s.reader.Reading? && IsFetch(c, s.pos)
    ensures Next(c, s, Read).reader.Refusing? <==> |s.tasks| == 512
    ensures |s.tasks| < 512 ==>
              var t := Next(c, s, Read).tasks;
              s.pos in t && t[s.pos] == Task(s.slot, None)
  {
    hide HandleFetch, ViewAt, Held, Requested, AllHonest;
  }
}
