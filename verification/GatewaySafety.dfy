/** What every step of the gateway keeps. */
module GatewaySafety {
  import opened Wrappers
  import opened Dispatch
  import opened Gateway

  // ----- Bounds and snapshots -----

  ghost predicate Bounded(s: State) {
    s.permits + |s.tasks| == MAX_CONCURRENT && |s.queue| <= MAX_PENDING
  }

  /** The slot and every snapshot hold the view the input fixes at their position. */
  ghost predicate Snapshots(c: Config, s: State) {
    && s.pos <= |c.input|
    && s.slot == ViewAt(c, s.pos)
    && (forall k :: k in s.tasks ==>
          IsFetch(c, k) && k < s.pos && k !in s.refused && s.tasks[k].view == ViewAt(c, k)
          && (s.tasks[k].resp.Some? ==> s.tasks[k].resp.value == Answer(c, s.refused, k).resp))
    && (forall k :: k in s.refused ==> IsFetch(c, k) && k < s.pos)
  }

  /** The envelope is the one answer for its position. */
  ghost predicate Honest(c: Config, s: State, e: Envelope) {
    IsFetch(c, e.pos) && e.pos < s.pos && e == Answer(c, s.refused, e.pos)
  }

  ghost predicate AllHonest(c: Config, s: State) {
    && (forall i :: 0 <= i < |s.queue| ==> Honest(c, s, s.queue[i]))
    && (forall i :: 0 <= i < |s.written| ==> Honest(c, s, s.written[i]))
    && (s.reader.Refusing? ==> Honest(c, s, s.reader.e))
    && (s.writer.Writing? ==> Honest(c, s, s.writer.e))
  }

  lemma BoundedStep(c: Config, s: State, step: Step)
    requires Bounded(s) && Snapshots(c, s)
    ensures Bounded(Next(c, s, step))
  {
    hide HandleFetch, Snapshots, ReadFrame;
    if Enabled(c, s, step) {
      match step
      case Read => BoundedRead(c, s);
      case Run(k) => TaskUpdated(s.tasks, k, Next(c, s, step).tasks[k]);
      case Deliver(k) => TaskRemoved(s.tasks, k);
      case _ =>
    }
  }

  lemma BoundedRead(c: Config, s: State)
    requires Bounded(s) && Snapshots(c, s) && s.pos < |c.input|
    ensures Bounded(ReadFrame(c, s))
  {
    hide HandleFetch, ViewAt, Answer;
    assert s.pos !in s.tasks;
    TaskAdded(s.tasks, s.pos, Task(s.slot, None));
  }

  lemma TaskAdded(m: map<nat, Task>, k: nat, t: Task)
    ensures k !in m ==> |m[k := t]| == |m| + 1
  {
  }

  lemma TaskUpdated(m: map<nat, Task>, k: nat, t: Task)
    requires k in m
    ensures |m[k := t]| == |m|
  {
  }

  lemma TaskRemoved(m: map<nat, Task>, k: nat)
    requires k in m
    ensures |m - {k}| == |m| - 1
  {
    assert m.Keys == (m - {k}).Keys + {k};
    assert |m| == |m.Keys| && |m - {k}| == |(m - {k}).Keys|;
  }

  lemma SnapshotsStep(c: Config, s: State, step: Step)
    requires Snapshots(c, s)
    ensures Snapshots(c, Next(c, s, step))
  {
    hide HandleFetch;
    if Enabled(c, s, step) && step.Read? {
      SnapshotsRead(c, s);
    }
  }

  lemma SnapshotsRead(c: Config, s: State)
    requires Snapshots(c, s) && s.pos < |c.input|
    ensures Snapshots(c, ReadFrame(c, s))
  {
    hide HandleFetch;
    assert s.pos !in s.refused && s.pos !in s.tasks;
  }

  /** Refusing one more position does not change the answers before it. */
  lemma HonestLater(c: Config, s: State, e: Envelope)
    requires s.pos < |c.input| && Honest(c, s, e)
    ensures Honest(c, ReadFrame(c, s), e)
  {
    hide HandleFetch, ViewAt;
  }

  lemma HonestRead(c: Config, s: State)
    requires Snapshots(c, s) && AllHonest(c, s) && s.pos < |c.input|
    requires s.reader.Reading?
    ensures AllHonest(c, ReadFrame(c, s))
  {
    hide HandleFetch, ViewAt, Honest;
    var s' := ReadFrame(c, s);
    forall i | 0 <= i < |s.queue| ensures Honest(c, s', s.queue[i]) { HonestLater(c, s, s.queue[i]); }
    forall i | 0 <= i < |s.written| ensures Honest(c, s', s.written[i]) { HonestLater(c, s, s.written[i]); }
    if s.writer.Writing? {
      HonestLater(c, s, s.writer.e);
    }
    if s'.reader.Refusing? {
      HonestRefusal(c, s);
    }
  }

  lemma HonestRefusal(c: Config, s: State)
    requires s.pos < |c.input| && s.reader.Reading? && ReadFrame(c, s).reader.Refusing?
    ensures Honest(c, ReadFrame(c, s), ReadFrame(c, s).reader.e)
  {
    hide HandleFetch, ViewAt;
  }

  lemma HonestSame(c: Config, s: State, s': State, e: Envelope)
    requires s'.pos == s.pos && s'.refused == s.refused
    ensures Honest(c, s, e) <==> Honest(c, s', e)
  {
    hide HandleFetch, ViewAt, Answer;
  }

  lemma HonestStep(c: Config, s: State, step: Step)
    requires Snapshots(c, s) && AllHonest(c, s)
    ensures AllHonest(c, Next(c, s, step))
  {
    hide HandleFetch, ViewAt, Honest, Answer, IsFetch, ReadFrame;
    if Enabled(c, s, step) {
      if step.Read? {
        HonestRead(c, s);
      } else {
        var s' := Next(c, s, step);
        assert s'.pos == s.pos && s'.refused == s.refused;
        forall e ensures Honest(c, s, e) <==> Honest(c, s', e) { HonestSame(c, s, s', e); }
        if step.Deliver? {
          HonestDelivery(c, s, step.k);
        }
      }
    }
  }

  lemma HonestDelivery(c: Config, s: State, k: nat)
    requires Snapshots(c, s) && k in s.tasks && s.tasks[k].resp.Some?
    ensures Honest(c, s, Envelope(k, s.tasks[k].resp.value))
  {
    hide HandleFetch, ViewAt;
  }

  // ----- Conservation -----

  /** How many of the envelopes answer position p. */
  function Count(es: seq<Envelope>, p: nat): nat {
    if es == [] then 0 else Count(es[1..], p) + if es[0].pos == p then 1 else 0
  }

  lemma {:induction false} CountAppend(es: seq<Envelope>, e: Envelope, p: nat)
    ensures Count(es + [e], p) == Count(es, p) + if e.pos == p then 1 else 0
    decreases |es|
  {
    if es == [] {
      assert [e][1..] == [];
    } else {
      assert (es + [e])[1..] == es[1..] + [e];
      CountAppend(es[1..], e, p);
    }
  }

  function WithReader(r: Reader, p: nat): nat {
    if r.Refusing? && r.e.pos == p then 1 else 0
  }

  function WithWriter(w: Writer, p: nat): nat {
    if w.Writing? && w.e.pos == p then 1 else 0
  }

  function WithTask(s: State, p: nat): nat {
    if p in s.tasks then 1 else 0
  }

  /** The places where the request at position p can be: in a task, with the reader, queued,
      with the writer, or written. */
  function Held(s: State, p: nat): nat {
    WithTask(s, p) + WithReader(s.reader, p) + Count(s.queue, p) + WithWriter(s.writer, p) + Count(s.written, p)
  }

  function Requested(c: Config, s: State, p: nat): nat {
    if IsFetch(c, p) && p < s.pos then 1 else 0
  }

  /** While the writer lives every request read is in exactly one place; after it fails, in at
      most one. */
  ghost predicate Conserved(c: Config, s: State) {
    && (forall p :: Held(s, p) <= Requested(c, s, p))
    && (!s.writer.Failed? ==> forall p :: Held(s, p) == Requested(c, s, p))
    && (s.writer.Finished? ==> s.queue == [] && s.tasks == map[] && s.reader.Stopped?)
  }

  lemma HeldRead(c: Config, s: State, p: nat)
    requires Snapshots(c, s) && s.pos < |c.input| && s.reader.Reading?
    ensures Held(ReadFrame(c, s), p) == Held(s, p) + if p == s.pos && IsFetch(c, p) then 1 else 0
  {
    hide HandleFetch, ViewAt, Count, Answer;
    assert s.pos !in s.tasks;
  }

  /** A response entering the channel stays held; a dropped one does not. */
  lemma HeldSend(c: Config, s: State, step: Step, p: nat)
    requires Enabled(c, s, step) && (step.SendRefusal? || step.Deliver?)
    ensures Held(Next(c, s, step), p) <= Held(s, p)
    ensures Open(s) ==> Held(Next(c, s, step), p) == Held(s, p)
  {
    hide HandleFetch, Count;
    var e := if step.SendRefusal? then s.reader.e else Envelope(step.k, s.tasks[step.k].resp.value);
    CountAppend(s.queue, e, p);
  }

  lemma HeldWrite(c: Config, s: State, step: Step, p: nat)
    requires Enabled(c, s, step) && !step.Read? && !step.SendRefusal? && !step.Deliver?
    ensures Held(Next(c, s, step), p) <= Held(s, p)
    ensures !step.WriteFail? ==> Held(Next(c, s, step), p) == Held(s, p)
  {
    hide HandleFetch;
    match step
    case Receive => hide Count; CountHead(s.queue, p);
    case WriteOk => hide Count; CountAppend(s.written, s.writer.e, p);
    case WriteFail => assert Count([], p) == 0; hide Count;
    case _ => hide Count;
  }

  lemma CountHead(es: seq<Envelope>, p: nat)
    requires es != []
    ensures Count(es, p) == Count(es[1..], p) + if es[0].pos == p then 1 else 0
  {
  }

  lemma ConservedStep(c: Config, s: State, step: Step)
    requires Snapshots(c, s) && Conserved(c, s)
    ensures Conserved(c, Next(c, s, step))
  {
    hide HandleFetch, Held, ReadFrame, Snapshots;
    if Enabled(c, s, step) {
      var s' := Next(c, s, step);
      forall p
        ensures Held(s', p) <= Requested(c, s', p) && (!s'.writer.Failed? ==> Held(s', p) == Requested(c, s', p))
      {
        match step
        case Read => HeldRead(c, s, p); ReadShape(c, s);
        case SendRefusal => HeldSend(c, s, step, p);
        case Deliver(_) => HeldSend(c, s, step, p);
        case _ => HeldWrite(c, s, step, p);
      }
      if step.Read? {
        ReadShape(c, s);
      }
    }
  }

  lemma ReadShape(c: Config, s: State)
    requires s.pos < |c.input|
    ensures var s' := ReadFrame(c, s);
            s'.pos == s.pos + 1 && s'.writer == s.writer && s'.queue == s.queue && s'.written == s.written
  {
  }

  // ----- Every reachable state -----

  ghost predicate Inv(c: Config, s: State) {
    Bounded(s) && Snapshots(c, s) && AllHonest(c, s) && Conserved(c, s)
  }

  lemma InvInit(c: Config)
    ensures Inv(c, Init(c))
  {
  }

  lemma InvStep(c: Config, s: State, step: Step)
    requires Inv(c, s)
    ensures Inv(c, Next(c, s, step))
  {
    hide Bounded, Snapshots, AllHonest, Conserved, Next;
    BoundedStep(c, s, step);
    SnapshotsStep(c, s, step);
    HonestStep(c, s, step);
    ConservedStep(c, s, step);
  }

  /** The invariant holds after every interleaving. */
  lemma {:induction false} InvAlways(c: Config, steps: seq<Step>)
    ensures Inv(c, After(c, Init(c), steps))
  {
    hide Inv, Next;
    if steps == [] {
      InvInit(c);
    } else {
      InvAlways(c, steps[..|steps| - 1]);
      InvStep(c, After(c, Init(c), steps[..|steps| - 1]), steps[|steps| - 1]);
    }
  }
}
