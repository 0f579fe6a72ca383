/** The Python gateway's link to the inference worker (gateway.py, worker.py, protocol.py). */
module WorkerLink {
  import opened Wrappers

  /* Requests are encoded into a ring of shared-memory slots, queue for one FIFO lock, and
     are carried over a socket that may fail and be reopened while the worker behind an old
     connection keeps running.

     One action is one atomic step of one party.  Encoding a request and joining the
     lock's queue is one step because request() does not suspend in between. */

  type Bytes = seq<int>

  /** slots x slotBytes of shared memory; `clients` WebSocket connections, each with
      at most maxInflight requests between decoding and their response. */
  datatype Config = Config(slots: nat, slotBytes: nat, clients: nat, maxInflight: nat)

  datatype Request = Request(client: nat, payload: Bytes)

  /** Where a frame says its tensors are. */
  datatype Transport = InSlot(slot: nat, nbytes: nat) | Inline(payload: Bytes)

  /** `serial` numbers the send attempts of the gateway; no party looks at it. */
  datatype Frame = Frame(id: nat, transport: Transport, serial: nat)

  /** data is what the worker read as the request's tensors, None an error response. */
  datatype Response = Response(id: nat, data: Option<Bytes>, serial: nat)

  /** One connection: bytes under way to the worker, its reader's bounded queue, the
      frame being processed, and the responses not yet read. */
  datatype Conn = Conn(open: bool, sent: seq<Frame>, queue: seq<Frame>, work: Option<Frame>, replies: seq<Response>)

  datatype Outcome = Delivered(resp: Response, serial: nat) | IdMismatch | Unreachable

  /** What the holder of the lock is doing; `attempt` counts the tries used up. */
  datatype Phase = Idle | Trying(attempt: nat) | Waiting(attempt: nat)

  /** requests: every request encoded so far, oldest first.  The first |outcomes| of
      them are finished; the next one holds the lock unless the phase is Idle. */
  datatype State = State(
    requests: seq<Request>, outcomes: seq<Outcome>, sends: seq<nat>, totalSends: nat,
    region: seq<Bytes>, conns: seq<Conn>, sock: Option<nat>, phase: Phase)

  datatype Action =
    | Encode(client: nat, payload: Bytes)
    | Acquire
    | Connect
    | ConnectFails
    | Send
    | SendFails(arrived: bool)
    | Receive
    | ReceiveFails
    | ReaderPuts(conn: nat)
    | WorkerTakes(conn: nat)
    | WorkerAnswers(conn: nat, ok: bool)
    | WorkerDrops(conn: nat)

  const MAX_ATTEMPTS: nat := 3
  const QUEUE_SIZE: nat := 2

  // ---------------------------------------------------------------- the steps

  function Init(cfg: Config): State
  {
    State([], [], [], 0, seq(cfg.slots, _ => seq(cfg.slotBytes, _ => 0)), [], None, Idle)
  }

  function Outstanding(s: State): seq<Request>
    requires |s.outcomes| <= |s.requests|
  {
    s.requests[|s.outcomes|..]
  }

  predicate Fits(cfg: Config, r: Request)
  {
    |r.payload| <= cfg.slotBytes
  }

  /** encode_request: the slot index is the running counter modulo the ring size. */
  function FrameOf(cfg: Config, i: nat, r: Request, serial: nat): Frame
    requires cfg.slots > 0
  {
    Frame(i, if Fits(cfg, r) then InSlot(i % cfg.slots, |r.payload|) else Inline(r.payload), serial)
  }

  /** The payload overwrites the front of the slot and leaves the rest. */
  function Overlay(slot: Bytes, payload: Bytes): Bytes
    requires |payload| <= |slot|
  {
    payload + slot[|payload|..]
  }

  function ReadTensors(region: seq<Bytes>, t: Transport): Bytes
    requires t.InSlot? ==> t.slot < |region| && t.nbytes <= |region[t.slot]|
  {
    match t
    case InSlot(k, n) => region[k][..n]
    case Inline(p) => p
  }

  function Count(rs: seq<Request>, client: nat): nat
  {
    if rs == [] then 0 else (if rs[0].client == client then 1 else 0) + Count(rs[1..], client)
  }

  /** Sizes every reachable state has, which the steps need to be defined; a reader stops
      at QUEUE_SIZE frames. */
  ghost predicate Shape(cfg: Config, s: State)
  {
    && cfg.slots > 0 && |s.region| == cfg.slots
    && (forall k :: 0 <= k < cfg.slots ==> |s.region[k]| == cfg.slotBytes)
    && |s.outcomes| <= |s.requests| && |s.sends| == |s.requests|
    && (s.phase != Idle ==> |s.outcomes| < |s.requests|)
    && (s.sock.Some? ==> s.sock.value < |s.conns|)
    && (s.phase.Waiting? ==> s.sock.Some?)
    && (forall i :: 0 <= i < |s.conns| ==> FramesReadable(cfg, s.conns[i]) && |s.conns[i].queue| <= QUEUE_SIZE)
  }

  ghost predicate Readable(cfg: Config, f: Frame)
  {
    f.transport.InSlot? ==> f.transport.slot < cfg.slots && f.transport.nbytes <= cfg.slotBytes
  }

  ghost predicate FramesReadable(cfg: Config, c: Conn)
  {
    && (forall f <- c.sent + c.queue :: Readable(cfg, f))
    && (c.work.Some? ==> Readable(cfg, c.work.value))
  }

  ghost predicate Enabled(cfg: Config, s: State, a: Action)
    requires Shape(cfg, s)
  {
    match a
    case Encode(client, _) => client < cfg.clients && Count(Outstanding(s), client) < cfg.maxInflight
    case Acquire => s.phase == Idle && |s.outcomes| < |s.requests|
    case Connect | ConnectFails => s.phase.Trying? && s.sock == None
    case Send | SendFails(_) => s.phase.Trying? && s.sock.Some?
    case Receive => s.phase.Waiting? && s.conns[s.sock.value].replies != []
    case ReceiveFails => s.phase.Waiting?
    case ReaderPuts(i) => i < |s.conns| && s.conns[i].sent != [] && |s.conns[i].queue| < QUEUE_SIZE
    case WorkerTakes(i) => i < |s.conns| && s.conns[i].work == None && s.conns[i].queue != []
    case WorkerAnswers(i, _) => i < |s.conns| && s.conns[i].work.Some?
    case WorkerDrops(i) => i < |s.conns|
  }

  function Finish(s: State, o: Outcome): State
  {
    s.(outcomes := s.outcomes + [o], phase := Idle)
  }

  /** The except branch: close the socket and try again, three times in all. */
  function Retry(s: State): State
    requires s.phase != Idle && (s.sock.Some? ==> s.sock.value < |s.conns|)
  {
    var closed := if s.sock.Some?
                  then s.(conns := s.conns[s.sock.value := s.conns[s.sock.value].(open := false)], sock := None)
                  else s;
    if s.phase.attempt + 1 < MAX_ATTEMPTS then closed.(phase := Trying(s.phase.attempt + 1))
    else Finish(closed, Unreachable)
  }

  function CountSend(s: State): State
    requires |s.outcomes| < |s.sends|
  {
    s.(sends := s.sends[|s.outcomes| := s.sends[|s.outcomes|] + 1], totalSends := s.totalSends + 1)
  }

  function PutFrame(cfg: Config, s: State): State
    requires Shape(cfg, s) && s.phase.Trying? && s.sock.Some?
  {
    var c, h := s.conns[s.sock.value], |s.outcomes|;
    s.(conns := s.conns[s.sock.value := c.(sent := c.sent + [FrameOf(cfg, h, s.requests[h], s.totalSends)])])
  }

  function Apply(cfg: Config, s: State, a: Action): State
    requires Shape(cfg, s) && Enabled(cfg, s, a)
  {
    match a
    case Encode(client, payload) =>
      var r, k := Request(client, payload), |s.requests| % cfg.slots;
      s.(requests := s.requests + [r],
         sends := s.sends + [0],
         region := if Fits(cfg, r) then s.region[k := Overlay(s.region[k], payload)] else s.region)
    case Acquire => s.(phase := Trying(0))
    case Connect => s.(conns := s.conns + [Conn(true, [], [], None, [])], sock := Some(|s.conns|))
    case ConnectFails => Retry(s)
    case Send => CountSend(PutFrame(cfg, s)).(phase := Waiting(s.phase.attempt))
    case SendFails(arrived) => Retry(CountSend(if arrived then PutFrame(cfg, s) else s))
    case Receive =>
      var c := s.conns[s.sock.value];
      var r := c.replies[0];
      Finish(s.(conns := s.conns[s.sock.value := c.(replies := c.replies[1..])]),
        if r.id == |s.outcomes| then Delivered(r, s.totalSends) else IdMismatch)
    case ReceiveFails => Retry(s)
    case ReaderPuts(i) =>
      var c := s.conns[i];
      s.(conns := s.conns[i := c.(sent := c.sent[1..], queue := c.queue + [c.sent[0]])])
    case WorkerTakes(i) =>
      var c := s.conns[i];
      s.(conns := s.conns[i := c.(queue := c.queue[1..], work := Some(c.queue[0]))])
    case WorkerAnswers(i, ok) =>
      var c := s.conns[i];
      var f := c.work.value;
      var r := Response(f.id, if ok then Some(ReadTensors(s.region, f.transport)) else None, f.serial);
      s.(conns := s.conns[i := c.(work := None, replies := c.replies + [r])])
    case WorkerDrops(i) =>
      s.(conns := s.conns[i := s.conns[i].(sent := [], queue := [], work := None)])
  }

  predicate ByWorker(a: Action)
  {
    a.ReaderPuts? || a.WorkerTakes? || a.WorkerAnswers? || a.WorkerDrops?
  }

  lemma ShapeKeptByWorker(cfg: Config, s: State, a: Action)
    requires Shape(cfg, s) && Enabled(cfg, s, a) && ByWorker(a)
    ensures Shape(cfg, Apply(cfg, s, a))
  {
    var c, c' := s.conns[a.conn], Apply(cfg, s, a).conns[a.conn];
    assert forall f <- c'.sent + c'.queue :: f in c.sent + c.queue;
    assert FramesReadable(cfg, c');
  }

  lemma ShapeKeptByGateway(cfg: Config, s: State, a: Action)
    requires Shape(cfg, s) && Enabled(cfg, s, a) && !ByWorker(a)
    ensures Shape(cfg, Apply(cfg, s, a))
  {
    if a.SendFails? || a.ConnectFails? || a.ReceiveFails? { ShapeKeptByFailure(cfg, s, a); }
  }

  lemma ShapeKeptByFailure(cfg: Config, s: State, a: Action)
    requires Shape(cfg, s) && Enabled(cfg, s, a) && (a.SendFails? || a.ConnectFails? || a.ReceiveFails?)
    ensures Shape(cfg, Apply(cfg, s, a))
  {
    hide Count;
  }

  lemma ShapeKept(cfg: Config, s: State, a: Action)
    requires Shape(cfg, s) && Enabled(cfg, s, a)
    ensures Shape(cfg, Apply(cfg, s, a))
  {
    if ByWorker(a) { ShapeKeptByWorker(cfg, s, a); } else { ShapeKeptByGateway(cfg, s, a); }
  }
}
