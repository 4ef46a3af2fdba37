/**
  The gateway runtime (raxis/gateway/src/runtime.rs) as a state machine: one reader, up to
  512 dispatch tasks, a bounded response channel, a writer and a swappable policy slot.
  Every message carries the position of its request in the input, so that answers can be
  told apart even when fetch ids repeat.
 */
module Gateway {
  import opened Wrappers
  import opened Dispatch

  const MAX_CONCURRENT: nat := 512
  const MAX_PENDING: nat := 2 * MAX_CONCURRENT

  /** An epoch frame carries what reloading the policy at that moment yields. */
  datatype Frame = Fetch(req: FetchRequest) | EpochAdvanced(reload: Option<PolicyView>) | Unexpected

  datatype Config = Config(env: Env, initial: PolicyView, input: seq<Frame>)

  datatype Envelope = Envelope(pos: nat, resp: FetchResponse)

  /** A spawned task: the view it was given, and its response once dispatch has returned. */
  datatype Task = Task(view: Option<PolicyView>, resp: Option<FetchResponse>)

  /** Refusing: waiting for room in the channel to send an overload response. */
  datatype Reader = Reading | Refusing(e: Envelope) | Stopped

  datatype Writer = Idle | Writing(e: Envelope) | Finished | Failed

  datatype State = State(
    pos: nat,
    slot: Option<PolicyView>,
    permits: nat,
    tasks: map<nat, Task>,
    reader: Reader,
    queue: seq<Envelope>,
    writer: Writer,
    written: seq<Envelope>,
    refused: set<nat>)

  function Init(c: Config): State {
    State(0, Some(c.initial), MAX_CONCURRENT, map[], Reading, [], Idle, [], {})
  }

  function Overloaded(req: FetchRequest): FetchResponse {
    FetchResponse(req.fetchId, None, [], None, 0, Some("NetworkError"))
  }

  // ----- Steps -----

  datatype Step =
    | Read                  // the reader takes the next frame
    | SendRefusal           // the reader's overload response enters the channel
    | StopReading           // end of input, a read error, or the writer's exit signal
    | Run(k: nat)           // task k finishes its dispatch
    | Deliver(k: nat)       // task k sends its response and ends
    | Receive               // the writer takes a response from the channel
    | WriteOk
    | WriteFail             // write error or timeout: the writer ends, the channel closes
    | Finish                // all senders gone and the channel empty

  predicate Open(s: State) {
    !s.writer.Failed? && !s.writer.Finished?
  }

  predicate Enabled(c: Config, s: State, step: Step) {
    match step
    case Read => s.reader.Reading? && s.pos < |c.input|
    case SendRefusal => s.reader.Refusing? && (Open(s) ==> |s.queue| < MAX_PENDING)
    case StopReading => s.reader.Reading?
    case Run(k) => k in s.tasks && s.tasks[k].resp.None? && k < |c.input| && c.input[k].Fetch?
    case Deliver(k) => k in s.tasks && s.tasks[k].resp.Some? && (Open(s) ==> |s.queue| < MAX_PENDING)
    case Receive => s.writer.Idle? && s.queue != []
    case WriteOk => s.writer.Writing?
    case WriteFail => s.writer.Writing?
    case Finish => s.writer.Idle? && s.queue == [] && s.tasks == map[] && s.reader.Stopped?
  }

  /** A send on the channel; after the writer is gone the message is dropped. */
  function Send(s: State, e: Envelope): seq<Envelope> {
    if Open(s) then s.queue + [e] else s.queue
  }

  function ReadFrame(c: Config, s: State): State
    requires s.pos < |c.input|
  {
    match c.input[s.pos]
    case Fetch(req) =>
      if s.permits == 0 then
        s.(pos := s.pos + 1, reader := Refusing(Envelope(s.pos, Overloaded(req))), refused := s.refused + {s.pos})
      else
        s.(pos := s.pos + 1, permits := s.permits - 1, tasks := s.tasks[s.pos := Task(s.slot, None)])
    case EpochAdvanced(reload) => s.(pos := s.pos + 1, slot := reload)
    case Unexpected => s.(pos := s.pos + 1)
  }

  /** One step; a step that is not enabled leaves the state as it is. */
  function Next(c: Config, s: State, step: Step): State {
    if !Enabled(c, s, step) then s else
    match step
    case Read => ReadFrame(c, s)
    case SendRefusal => s.(queue := Send(s, s.reader.e), reader := Reading)
    case StopReading => s.(reader := Stopped)
    case Run(k) =>
      var t := s.tasks[k];
      s.(tasks := s.tasks[k := t.(resp := Some(HandleFetch(c.env, k, c.input[k].req, t.view)))])
    case Deliver(k) =>
      s.(queue := Send(s, Envelope(k, s.tasks[k].resp.value)), tasks := s.tasks - {k}, permits := s.permits + 1)
    case Receive => s.(writer := Writing(s.queue[0]), queue := s.queue[1..])
    case WriteOk => s.(writer := Idle, written := s.written + [s.writer.e])
    case WriteFail => s.(writer := Failed, queue := [])
    case Finish => s.(writer := Finished)
  }

  function After(c: Config, s: State, steps: seq<Step>): State {
    if steps == [] then s else Next(c, After(c, s, steps[..|steps| - 1]), steps[|steps| - 1])
  }

  // ----- The sequential reference -----

  /** The policy view fixed by the first n frames. */
  function ViewAt(c: Config, n: nat): Option<PolicyView>
    requires n <= |c.input|
  {
    if n == 0 then Some(c.initial)
    else if c.input[n - 1].EpochAdvanced? then c.input[n - 1].reload
    else ViewAt(c, n - 1)
  }

  predicate IsFetch(c: Config, k: nat) {
    k < |c.input| && c.input[k].Fetch?
  }

  /** The one answer for position k: an overload refusal, or dispatch under the view there. */
  function Answer(c: Config, refused: set<nat>, k: nat): Envelope
    requires IsFetch(c, k)
  {
    var req := c.input[k].req;
    Envelope(k, if k in refused then Overloaded(req) else HandleFetch(c.env, k, req, ViewAt(c, k)))
  }

  /** The fetch positions among the first n frames, in input order. */
  function Fetches(c: Config, n: nat): (ps: seq<nat>)
    requires n <= |c.input|
    ensures forall i :: 0 <= i < |ps| ==> IsFetch(c, ps[i]) && ps[i] < n
  {
    if n == 0 then [] else Fetches(c, n - 1) + if c.input[n - 1].Fetch? then [n - 1] else []
  }

  function Answers(c: Config, refused: set<nat>, ps: seq<nat>): seq<Envelope>
    requires forall i :: 0 <= i < |ps| ==> IsFetch(c, ps[i])
  {
    seq(|ps|, i requires 0 <= i < |ps| => Answer(c, refused, ps[i]))
  }

  /** A gateway that handles one frame at a time, refusing the given positions. */
  function Sequential(c: Config, refused: set<nat>, n: nat): seq<Envelope>
    requires n <= |c.input|
  {
    Answers(c, refused, Fetches(c, n))
  }
}
