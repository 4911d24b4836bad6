/**
 The HTTP and WebSocket client (code/http_websocket_client.hpp): requests and sockets
 driven by the callbacks of libwebsockets, by timers and by the scripts, in any order.

 The library is known by its contract only: it sends callbacks for connections it holds,
 and WSI_DESTROY is the last one. Data is counted, not kept, and every timer may fire at
 any time.
 */
module HttpWs {

  const MAX_SLOTS: nat := 16
  const MAX_STRING: nat := 65000
  const RX_QUEUE_MAX: nat := 4 * 1024 * 1024

  datatype Slot = Empty | Holds(id: nat)

  /** `level` is the level it was made in. */
  datatype Req = Req(
    level: nat, live: bool, killed: bool, err: string, reported: bool, body: nat, hasDone: bool, hasError: bool)

  /** Which script callbacks a socket has. */
  datatype Hears = Hears(open: bool, message: bool, close: bool, error: bool)

  /** `slot` and `level` are where and when it was made; `waiting` is a set reconnect time. */
  datatype Ws = Ws(
    level: nat, slot: nat, live: bool, killed: bool, err: string, connected: bool, closing: bool, detached: bool,
    finished: bool, reconnects: bool, waiting: bool, rx: nat, rxDrop: bool, hears: Hears)

  datatype What = Done | Failed | Opened | Message | Closed(byRemote: bool, fully: bool) | Error

  /** One queued script callback; `level` is the level its request or socket was made in. */
  datatype Note = Note(target: nat, what: What, bytes: nat, level: nat)

  /**
   `held` is what the library holds, `told` all that was ever queued and `gone` the
   requests that were freed.
   */
  datatype State = State(
    reqs: map<nat, Req>, sockets: map<nat, Ws>, slots: seq<Slot>, queue: seq<Note>, rxBytes: int,
    gen: nat, nextId: nat, held: set<nat>, told: seq<Note>, gone: map<nat, Req>)

  function Start(): State {
    State(map[], map[], seq(MAX_SLOTS, i => Empty), [], 0, 0, 0, {}, [], map[])
  }

  // ---- reporting ----------------------------------------------------------------------

  function Tell(s: State, n: Note): State {
    s.(queue := s.queue + [n], told := s.told + [n], rxBytes := s.rxBytes + if n.what.Message? then n.bytes else 0)
  }

  function TellIf(s: State, wanted: bool, n: Note): State {
    if wanted then Tell(s, n) else s
  }

  /** Reports a request's outcome once. */
  function Finish(s: State, id: nat, r: Req): State {
    if r.reported then s.(reqs := s.reqs[id := r])
    else
      var t := s.(reqs := s.reqs[id := r.(reported := true)]);
      if r.level != s.gen then t
      else if r.err == [] then TellIf(t, r.hasDone, Note(id, Done, r.body, r.level))
      else TellIf(t, r.hasError, Note(id, Failed, |r.err|, r.level))
  }

  const UNEXPECTED: string := "Connection closed unexpectedly"

  /** A request's connection is gone. */
  function ReqEnded(s: State, id: nat, r: Req): State {
    Finish(s.(held := s.held - {id}), id, r.(live := false, err := if r.err == [] then UNEXPECTED else r.err))
  }

  /** A socket's connection is gone. */
  function WsEnded(s: State, id: nat, w: Ws): State {
    var byRemote := !w.closing && !w.killed;
    var again := !w.closing && w.reconnects;
    var v := w.(live := false, connected := false, rx := 0, rxDrop := false, waiting := again,
        finished := w.finished || !again, err := []);
    var t := s.(held := s.held - {id}, sockets := s.sockets[id := v]);
    if w.detached then t
    else
      var u := TellIf(t, w.err != [] && !w.closing && w.hears.error, Note(id, Error, |w.err|, w.level));
      TellIf(u, w.connected && w.hears.close, Note(id, Closed(byRemote, v.finished), 0, w.level))
  }

  // ---- what the scripts do -----------------------------------------------------------------

  /** How a connect goes: the library takes the connection, or it ends inside the call, with or without a message. */
  datatype Outcome = Started | NotStarted(msg: string)

  /** `bad` is what is wrong with the arguments, if anything. */
  function Fetch(s: State, bad: string, outcome: Outcome, hasDone: bool, hasError: bool): State {
    var id, r := s.nextId, Req(s.gen, false, false, bad, false, 0, hasDone, hasError);
    var t := s.(nextId := id + 1);
    if bad != [] then
      var u := Finish(t, id, r);
      u.(reqs := s.reqs, gone := s.gone[id := r.(reported := true)])
    else if outcome.Started? then t.(reqs := s.reqs[id := r.(live := true)], held := s.held + {id})
    else ReqEnded(t, id, r.(err := outcome.msg))
  }

  function FreeSlot(slots: seq<Slot>): (i: nat)
    ensures i <= |slots| && (i < |slots| ==> slots[i] == Empty)
    ensures forall k :: 0 <= k < i ==> slots[k] != Empty
  {
    if slots == [] || slots[0] == Empty then 0 else 1 + FreeSlot(slots[1..])
  }

  function Connect(s: State, id: nat, w: Ws, outcome: Outcome): State {
    if outcome.Started? then
      var v := w.(live := true, killed := false, waiting := false);
      s.(sockets := s.sockets[id := v], held := s.held + {id})
    else WsEnded(s, id, w.(killed := false, waiting := false, err := if w.err == [] then outcome.msg else w.err))
  }

  function WsOpen(s: State, bad: string, outcome: Outcome, reconnects: bool, hears: Hears): State {
    var i := FreeSlot(s.slots);
    if i == |s.slots| then s
    else
      var id := s.nextId;
      var w := Ws(s.gen, i, false, false, bad, false, false, false, false, reconnects, false, 0, false, hears);
      var t := s.(nextId := id + 1, slots := s.slots[i := Holds(id)], sockets := s.sockets[id := w]);
      if bad != [] then WsEnded(t, id, w.(reconnects := false)) else Connect(t, id, w, outcome)
  }

  function Killed(w: Ws, msg: string): Ws {
    if !w.live || w.killed then w else w.(killed := true, err := if w.err == [] then msg else w.err)
  }

  /** A close frame if connected, else the connection is killed; without one there is nothing to wait for. */
  function Shut(w: Ws): Ws {
    var c := w.(closing := true);
    if !w.live then c.(finished := true) else if w.connected then c else Killed(c, [])
  }

  function WsClose(s: State, i: nat): State {
    if i < |s.slots| && s.slots[i].Holds? && s.slots[i].id in s.sockets then
      s.(sockets := s.sockets[s.slots[i].id := Shut(s.sockets[s.slots[i].id])])
    else s
  }

  /** Every socket with a slot is shut and will report nothing more. */
  function LevelChanged(s: State): State {
    s.(gen := s.gen + 1, queue := [], rxBytes := 0,
       sockets := map id | id in s.sockets ::
           if Holds(id) in s.slots then Shut(s.sockets[id].(detached := true)) else s.sockets[id],
       slots := seq(|s.slots|, i => Empty))
  }

  // ---- what the library and the frame do -----------------------------------------------------

  const RX_FULL: string := "Receive queue full"

  /** Too long a message is dropped. */
  function Buffered(w: Ws, len: nat): Ws {
    var drop := !w.rxDrop && w.rx + len > MAX_STRING;
    w.(rx := if drop then 0 else if w.rxDrop then w.rx else w.rx + len, rxDrop := w.rxDrop || drop)
  }

  function Emptied(w: Ws): Ws {
    w.(rx := 0, rxDrop := false)
  }

  /** A part of a message, and maybe its end. */
  function Receive(s: State, id: nat, w: Ws, len: nat, last: bool): State {
    var v := Buffered(w, len);
    if !last then s.(sockets := s.sockets[id := v])
    else
      var t := TellIf(s, !v.rxDrop && !v.detached && v.hears.message, Note(id, Message, v.rx, v.level));
      var u := Emptied(v);
      t.(sockets := t.sockets[id := if t.rxBytes > RX_QUEUE_MAX then Killed(u, RX_FULL) else u])
  }

  function Deliver(s: State): State
    requires s.queue != []
  {
    s.(queue := s.queue[1..], rxBytes := s.rxBytes - if s.queue[0].what.Message? then s.queue[0].bytes else 0)
  }

  predicate ReqDone(r: Req) {
    !r.live && r.reported
  }

  predicate WsDone(w: Ws) {
    !w.live && w.finished
  }

  /** Frees what has ended and been reported. */
  function Reap(s: State): State {
    s.(reqs := map id | id in s.reqs && !ReqDone(s.reqs[id]) :: s.reqs[id],
       gone := map id | id in s.gone.Keys + s.reqs.Keys && (id in s.gone || ReqDone(s.reqs[id])) ::
                 if id in s.reqs && ReqDone(s.reqs[id]) then s.reqs[id] else if id in s.gone then s.gone[id]
                 else s.reqs[id],
       slots := seq(|s.slots|, i requires 0 <= i < |s.slots| =>
                      if s.slots[i].Holds? && s.slots[i].id in s.sockets
                          && WsDone(s.sockets[s.slots[i].id]) then Empty else s.slots[i]),
       sockets := map id | id in s.sockets && !WsDone(s.sockets[id]) :: s.sockets[id])
  }

  datatype Event =
    | DoFetch(bad: string, outcome: Outcome, hasDone: bool, hasError: bool)
    | DoWsOpen(bad: string, outcome: Outcome, reconnects: bool, hears: Hears)
    | DoWsClose(slot: nat)
    | DoLevelChanged
    | ReqDestroyed(id: nat) | ReqError(id: nat, msg: string, overwrites: bool) | ReqBody(id: nat, len: nat)
    | ReqCompleted(id: nat)
    | ReqKilled(id: nat, msg: string)
    | WsDestroyed(id: nat) | WsError(id: nat, msg: string) | WsEstablished(id: nat)
    | WsReceives(id: nat, len: nat, last: bool)
    | WsKilled(id: nat, msg: string) | WsReconnects(id: nat, outcome: Outcome)
    | DoDeliver | DoReap

  predicate HeldReq(s: State, id: nat) {
    id in s.held && id in s.reqs
  }

  predicate HeldWs(s: State, id: nat) {
    id in s.held && id in s.sockets
  }

  /** The library's contract, and when the program takes a step. */
  predicate Enabled(s: State, e: Event) {
    match e
    case DoFetch(_, _, _, _) => true
    case DoWsOpen(_, _, _, _) => true
    case DoWsClose(_) => true
    case DoLevelChanged => true
    case ReqDestroyed(id) => HeldReq(s, id)
    case ReqError(id, msg, _) => HeldReq(s, id) && msg != []
    case ReqBody(id, _) => HeldReq(s, id)
    case ReqCompleted(id) => HeldReq(s, id)
    case ReqKilled(id, _) => HeldReq(s, id)
    case WsDestroyed(id) => HeldWs(s, id)
    case WsError(id, _) => HeldWs(s, id)
    case WsEstablished(id) => HeldWs(s, id) && !s.sockets[id].connected
    case WsReceives(id, _, _) => HeldWs(s, id) && s.sockets[id].connected
    case WsKilled(id, _) => HeldWs(s, id)
    case WsReconnects(id, _) =>
      id in s.sockets && !s.sockets[id].live && !s.sockets[id].finished && s.sockets[id].waiting
    case DoDeliver => s.queue != []
    case DoReap => true
  }

  function Established(s: State, id: nat, w: Ws): State {
    if w.closing then s
    else TellIf(s.(sockets := s.sockets[id := w.(connected := true)]), !w.detached && w.hears.open,
        Note(id, Opened, 0, w.level))
  }

  function Next(s: State, e: Event): State
    requires Enabled(s, e)
  {
    match e
    case DoFetch(bad, outcome, hasDone, hasError) => Fetch(s, bad, outcome, hasDone, hasError)
    case DoWsOpen(bad, outcome, reconnects, hears) => WsOpen(s, bad, outcome, reconnects, hears)
    case DoWsClose(slot) => WsClose(s, slot)
    case DoLevelChanged => LevelChanged(s)
    case ReqDestroyed(id) => ReqEnded(s, id, s.reqs[id])
    case ReqError(id, msg, overwrites) =>
      var r := s.reqs[id];
      s.(reqs := s.reqs[id := r.(err := if r.err == [] || overwrites then msg else r.err)])
    case ReqBody(id, len) => s.(reqs := s.reqs[id := s.reqs[id].(body := s.reqs[id].body + len)])
    case ReqCompleted(id) => Finish(s, id, s.reqs[id])
    case ReqKilled(id, msg) =>
      var r := s.reqs[id];
      if r.killed then s else s.(reqs := s.reqs[id := r.(killed := true, err := if r.err == [] then msg else r.err)])
    case WsDestroyed(id) => WsEnded(s, id, s.sockets[id])
    case WsError(id, msg) =>
      var w := s.sockets[id];
      s.(sockets := s.sockets[id := w.(err := if w.err == [] then msg else w.err)])
    case WsEstablished(id) => Established(s, id, s.sockets[id])
    case WsReceives(id, len, last) => Receive(s, id, s.sockets[id], len, last)
    case WsKilled(id, msg) => s.(sockets := s.sockets[id := Killed(s.sockets[id], msg)])
    case WsReconnects(id, outcome) => Connect(s, id, s.sockets[id], outcome)
    case DoDeliver => Deliver(s)
    case DoReap => Reap(s)
  }

  // ---- what always holds --------------------------------------------------------------------

  /** How often an outcome of this request was queued. */
  function Outcomes(told: seq<Note>, id: nat): nat {
    if told == [] then 0
    else
      var n := told[|told| - 1];
      Outcomes(told[..|told| - 1], id) + if n.target == id && (n.what.Done? || n.what.Failed?) then 1 else 0
  }

  /** Between an open and the next close of this socket. */
  function InSession(told: seq<Note>, id: nat): bool {
    if told == [] then false
    else
      var n := told[|told| - 1];
      if n.target == id && n.what.Opened? then true
      else if n.target == id && n.what.Closed? then false
      else InSession(told[..|told| - 1], id)
  }

  function MessageBytes(queue: seq<Note>): nat {
    if queue == [] then 0 else (if queue[0].what.Message? then queue[0].bytes else 0) + MessageBytes(queue[1..])
  }

  /** A request is told once: once it has ended, if it has its callbacks and the level is still its own. */
  ghost predicate ReqOk(r: Req, id: nat, told: seq<Note>, gen: nat) {
    && r.level <= gen
    && (!r.live ==> r.reported)
    && Outcomes(told, id) <= (if r.reported then 1 else 0)
    && (r.reported && r.level == gen && r.hasDone && r.hasError ==> Outcomes(told, id) == 1)
  }

  /** A socket that may still report is in its slot and of this level, and its script has heard of the open it is in. */
  ghost predicate WsOk(w: Ws, id: nat, told: seq<Note>, gen: nat, slots: seq<Slot>) {
    && w.level <= gen
    && (w.connected ==> w.live)
    && (!w.live ==> w.finished || w.waiting)
    && (!w.detached ==> w.level == gen && w.slot < |slots| && slots[w.slot] == Holds(id))
    && (!w.detached && w.hears.open && w.hears.close ==> InSession(told, id) == w.connected)
  }

  ghost predicate ReqsOk(reqs: map<nat, Req>, told: seq<Note>, gen: nat) {
    forall id {:trigger id in reqs} | id in reqs :: ReqOk(reqs[id], id, told, gen)
  }

  ghost predicate SocketsOk(s: State) {
    forall id {:trigger id in s.sockets} | id in s.sockets :: WsOk(s.sockets[id], id, s.told, s.gen, s.slots)
  }

  /** The library holds exactly the live connections, and all of them are in memory. */
  ghost predicate HeldOk(s: State) {
    && (forall id {:trigger id in s.held} | id in s.held ::
        (id in s.reqs && s.reqs[id].live) || (id in s.sockets && s.sockets[id].live))
    && (forall id {:trigger id in s.reqs} | id in s.reqs :: s.reqs[id].live ==> id in s.held)
    && (forall id {:trigger id in s.sockets} | id in s.sockets :: s.sockets[id].live ==> id in s.held)
  }

  ghost predicate SlotOk(s: State, i: nat)
    requires i < |s.slots|
  {
    s.slots[i].Holds? ==>
      s.slots[i].id in s.sockets && s.sockets[s.slots[i].id].slot == i && !s.sockets[s.slots[i].id].detached
  }

  ghost predicate SlotsOk(s: State) {
    |s.slots| == MAX_SLOTS && forall i {:trigger SlotOk(s, i)} :: 0 <= i < |s.slots| ==> SlotOk(s, i)
  }

  ghost predicate IdsOk(s: State) {
    && (forall id | id in s.reqs :: id < s.nextId && id !in s.sockets && id !in s.gone)
    && (forall id | id in s.sockets :: id < s.nextId && id !in s.gone)
    && (forall id | id in s.gone :: id < s.nextId && !s.gone[id].live)
    && (forall k :: 0 <= k < |s.told| ==> s.told[k].target < s.nextId)
  }

  ghost predicate QueueOk(s: State) {
    && s.rxBytes == MessageBytes(s.queue)
    && forall k :: 0 <= k < |s.queue| ==> s.queue[k].level == s.gen
  }

  ghost predicate Invariant(s: State) {
    ReqsOk(s.reqs, s.told, s.gen) && ReqsOk(s.gone, s.told, s.gen) && SocketsOk(s) && HeldOk(s) && SlotsOk(s)
        && IdsOk(s) && QueueOk(s)
  }

  // ---- more notes -----------------------------------------------------------------------------

  lemma OneMore(told: seq<Note>, n: Note, id: nat)
    ensures Outcomes(told + [n], id) ==
            Outcomes(told, id) + if n.target == id && (n.what.Done? || n.what.Failed?) then 1 else 0
    ensures InSession(told + [n], id) ==
            if n.target == id && n.what.Opened? then true else if n.target == id && n.what.Closed? then false
            else InSession(told, id)
  {
    assert (told + [n])[..|told|] == told;
  }

  lemma {:induction false} MoreBytes(queue: seq<Note>, n: Note)
    ensures MessageBytes(queue + [n]) == MessageBytes(queue) + if n.what.Message? then n.bytes else 0
    decreases |queue|
  {
    if queue == [] {
      assert (queue + [n])[1..] == [];
    } else {
      assert (queue + [n])[1..] == queue[1..] + [n];
      MoreBytes(queue[1..], n);
    }
  }

  lemma {:induction false} NeverTold(told: seq<Note>, id: nat)
    requires forall k :: 0 <= k < |told| ==> told[k].target != id
    ensures Outcomes(told, id) == 0 && !InSession(told, id)
    decreases |told|
  {
    if told != [] {
      NeverTold(told[..|told| - 1], id);
    }
  }

  lemma TellKeepsQueue(s: State, n: Note)
    requires QueueOk(s) && n.level == s.gen
    ensures QueueOk(Tell(s, n))
  {
    MoreBytes(s.queue, n);
  }

  lemma TellKeepsReqs(reqs: map<nat, Req>, told: seq<Note>, gen: nat, n: Note)
    requires ReqsOk(reqs, told, gen) && (n.target in reqs ==> !n.what.Done? && !n.what.Failed?)
    ensures ReqsOk(reqs, told + [n], gen)
  {
    forall id {:trigger id in reqs} | id in reqs ensures ReqOk(reqs[id], id, told + [n], gen) {
      OneMore(told, n, id);
    }
  }

  lemma TellKeepsSockets(s: State, n: Note)
    requires SocketsOk(s) && (n.target in s.sockets ==> !n.what.Opened? && !n.what.Closed?)
    ensures SocketsOk(Tell(s, n))
  {
    forall id {:trigger id in s.sockets} | id in s.sockets
      ensures WsOk(s.sockets[id], id, s.told + [n], s.gen, s.slots) {
      OneMore(s.told, n, id);
    }
  }

  /** A note that is neither an outcome nor an open or close changes nothing but the queue. */
  lemma PlainNote(s: State, n: Note)
    requires Invariant(s) && n.level == s.gen && n.target < s.nextId && (n.what.Message? || n.what.Error?)
    ensures Invariant(Tell(s, n))
  {
    TellKeepsQueue(s, n);
    TellKeepsReqs(s.reqs, s.told, s.gen, n);
    TellKeepsReqs(s.gone, s.told, s.gen, n);
    TellKeepsSockets(s, n);
    var t := Tell(s, n);
    forall i {:trigger SlotOk(t, i)} | 0 <= i < |t.slots| ensures SlotOk(t, i) {
      assert SlotOk(s, i);
    }
  }

  // ---- a request changes ---------------------------------------------------------------------

  lemma SlotsStay(s: State, t: State)
    requires SlotsOk(s) && t.slots == s.slots && t.sockets == s.sockets
    ensures SlotsOk(t)
  {
    forall i {:trigger SlotOk(t, i)} | 0 <= i < |t.slots| ensures SlotOk(t, i) {
      assert SlotOk(s, i);
    }
  }

  lemma ReqChanges(s: State, id: nat, r: Req)
    requires Invariant(s) && id in s.reqs && ReqOk(r, id, s.told, s.gen) && r.live == s.reqs[id].live
    ensures Invariant(s.(reqs := s.reqs[id := r]))
  {
    var t := s.(reqs := s.reqs[id := r]);
    SlotsStay(s, t);
    forall k {:trigger k in t.reqs} | k in t.reqs
      ensures ReqOk(t.reqs[k], k, t.told, t.gen) && (t.reqs[k].live ==> k in t.held) {
      assert k != id ==> k in s.reqs;
    }
    forall k {:trigger k in t.sockets} | k in t.sockets ensures WsOk(t.sockets[k], k, t.told, t.gen, t.slots) {
      assert k in s.sockets;
    }
  }

  /** What is known of a request that is about to be reported. */
  ghost predicate Unsettled(s: State, id: nat, r: Req) {
    && r.level <= s.gen
    && Outcomes(s.told, id) <= (if r.reported then 1 else 0)
    && (r.reported && r.level == s.gen && r.hasDone && r.hasError ==> Outcomes(s.told, id) == 1)
    && id !in s.sockets && id !in s.gone && id < s.nextId
    && (r.live ==> id in s.held) && (id in s.held ==> r.live)
  }

  /** Everything holds but for request id. */
  ghost predicate FineBut(s: State, id: nat) {
    && ReqsOk(s.reqs - {id}, s.told, s.gen) && ReqsOk(s.gone, s.told, s.gen) && SocketsOk(s) && SlotsOk(s)
        && IdsOk(s) && QueueOk(s)
    && (forall k {:trigger k in s.held} | k in s.held && k != id ::
        (k in s.reqs && s.reqs[k].live) || (k in s.sockets && s.sockets[k].live))
    && (forall k {:trigger k in s.reqs} | k in s.reqs && k != id :: s.reqs[k].live ==> k in s.held)
    && (forall k {:trigger k in s.sockets} | k in s.sockets :: s.sockets[k].live ==> k in s.held)
  }

  lemma Settled(s: State, id: nat, r: Req)
    requires FineBut(s, id) && Unsettled(s, id, r) && (!r.live ==> r.reported)
    ensures Invariant(s.(reqs := s.reqs[id := r]))
  {
    var t := s.(reqs := s.reqs[id := r]);
    SlotsStay(s, t);
    forall k {:trigger k in t.reqs} | k in t.reqs ensures ReqOk(t.reqs[k], k, t.told, t.gen) {
      assert k != id ==> k in s.reqs - {id};
    }
    forall k {:trigger k in t.sockets} | k in t.sockets ensures WsOk(t.sockets[k], k, t.told, t.gen, t.slots) {
      assert k in s.sockets;
    }
  }

  lemma TellOutcome(s: State, id: nat, n: Note)
    requires FineBut(s, id) && id !in s.sockets && id !in s.gone && id < s.nextId
    requires n.target == id && (n.what.Done? || n.what.Failed?) && n.level == s.gen
    ensures FineBut(Tell(s, n), id) && Outcomes(Tell(s, n).told, id) == Outcomes(s.told, id) + 1
  {
    TellKeepsQueue(s, n);
    TellKeepsReqs(s.reqs - {id}, s.told, s.gen, n);
    TellKeepsReqs(s.gone, s.told, s.gen, n);
    TellKeepsSockets(s, n);
    OneMore(s.told, n, id);
    SlotsStay(s, Tell(s, n));
  }

  /** Reporting a request settles it: its outcome has been queued once, or its level is over. */
  lemma FinishKeeps(s: State, id: nat, r: Req)
    requires FineBut(s, id) && Unsettled(s, id, r)
    ensures Invariant(Finish(s, id, r))
  {
    hide FineBut;
    hide Invariant;
    if r.reported {
      Settled(s, id, r);
    } else {
      var done := r.(reported := true);
      var n := if r.err == [] then Note(id, Done, r.body, r.level) else Note(id, Failed, |r.err|, r.level);
      if r.level == s.gen && (if r.err == [] then r.hasDone else r.hasError) {
        TellOutcome(s, id, n);
        Settled(Tell(s, n), id, done);
      } else {
        Settled(s, id, done);
      }
    }
  }

  lemma ReqAlone(s: State, id: nat)
    requires Invariant(s) && id in s.reqs
    ensures FineBut(s, id) && FineBut(s.(held := s.held - {id}), id)
  {
    var t := s.(held := s.held - {id});
    SlotsStay(s, t);
    forall k {:trigger k in (s.reqs - {id})} | k in s.reqs - {id} ensures ReqOk((s.reqs - {id})[k], k, s.told, s.gen) {
      assert k in s.reqs;
    }
    forall k {:trigger k in t.sockets} | k in t.sockets
      ensures WsOk(t.sockets[k], k, t.told, t.gen, t.slots) && (t.sockets[k].live ==> k in t.held) {
      assert k in s.sockets;
    }
  }

  lemma ReqEndedKeeps(s: State, id: nat)
    requires Invariant(s) && id in s.reqs
    ensures Invariant(ReqEnded(s, id, s.reqs[id]))
  {
    ReqAlone(s, id);
    var r := s.reqs[id];
    FinishKeeps(s.(held := s.held - {id}), id, r.(live := false, err := if r.err == [] then UNEXPECTED else r.err));
  }

  lemma ReqCompletedKeeps(s: State, id: nat)
    requires Invariant(s) && id in s.reqs
    ensures Invariant(Finish(s, id, s.reqs[id]))
  {
    ReqAlone(s, id);
    FinishKeeps(s, id, s.reqs[id]);
  }

  /** A number nobody has used. */
  lemma NewReq(s: State, r: Req)
    requires Invariant(s) && r.level == s.gen && !r.reported && !r.live
    ensures var t := s.(nextId := s.nextId + 1);
            FineBut(t, s.nextId) && Unsettled(t, s.nextId, r) && t.held - {s.nextId} == t.held && s.nextId !in s.reqs
  {
    var t := s.(nextId := s.nextId + 1);
    SlotsStay(s, t);
    NeverTold(s.told, s.nextId);
    assert s.nextId !in s.held;
    assert s.reqs - {s.nextId} == s.reqs;
    forall k {:trigger k in t.sockets} | k in t.sockets ensures WsOk(t.sockets[k], k, t.told, t.gen, t.slots) {
      assert k in s.sockets;
    }
  }

  lemma ReqFreed(s: State, id: nat)
    requires Invariant(s) && id in s.reqs && ReqDone(s.reqs[id])
    ensures Invariant(s.(reqs := s.reqs - {id}, gone := s.gone[id := s.reqs[id]]))
  {
    var t := s.(reqs := s.reqs - {id}, gone := s.gone[id := s.reqs[id]]);
    SlotsStay(s, t);
    forall k {:trigger k in t.reqs} | k in t.reqs
      ensures ReqOk(t.reqs[k], k, t.told, t.gen) && (t.reqs[k].live ==> k in t.held) {
      assert k in s.reqs;
    }
    forall k {:trigger k in t.gone} | k in t.gone ensures ReqOk(t.gone[k], k, t.told, t.gen) {
      assert k != id ==> k in s.gone;
    }
    forall k {:trigger k in t.sockets} | k in t.sockets
      ensures WsOk(t.sockets[k], k, t.told, t.gen, t.slots) && (t.sockets[k].live ==> k in t.held) {
      assert k in s.sockets;
    }
  }

  lemma BadFetchKeeps(s: State, r: Req)
    requires Invariant(s) && r.level == s.gen && !r.reported && !r.live
    ensures var u := Finish(s.(nextId := s.nextId + 1), s.nextId, r);
            Invariant(u.(reqs := s.reqs, gone := s.gone[s.nextId := r.(reported := true)]))
  {
    hide Invariant;
    hide FineBut;
    var id, t := s.nextId, s.(nextId := s.nextId + 1);
    NewReq(s, r);
    FinishKeeps(t, id, r);
    var u := Finish(t, id, r);
    assert u.reqs == s.reqs[id := r.(reported := true)] && u.gone == s.gone;
    assert u.reqs - {id} == s.reqs;
    ReqFreed(u, id);
  }

  lemma FailedFetchKeeps(s: State, r: Req)
    requires Invariant(s) && r.level == s.gen && !r.reported && !r.live
    ensures Invariant(ReqEnded(s.(nextId := s.nextId + 1), s.nextId, r))
  {
    hide Invariant;
    hide FineBut;
    var id, t := s.nextId, s.(nextId := s.nextId + 1);
    NewReq(s, r);
    assert t.(held := t.held - {id}) == t;
    FinishKeeps(t, id, r.(err := if r.err == [] then UNEXPECTED else r.err));
  }

  lemma FetchKeeps(s: State, bad: string, outcome: Outcome, hasDone: bool, hasError: bool)
    requires Invariant(s)
    ensures Invariant(Fetch(s, bad, outcome, hasDone, hasError))
  {
    hide Invariant;
    hide Finish;
    var r := Req(s.gen, false, false, bad, false, 0, hasDone, hasError);
    if bad != [] {
      BadFetchKeeps(s, r);
    } else if outcome.Started? {
      NewHeld(s, r);
    } else {
      FailedFetchKeeps(s, r.(err := outcome.msg));
    }
  }

  lemma NewHeld(s: State, r: Req)
    requires Invariant(s) && r.level == s.gen && !r.reported && !r.live
    ensures Invariant(s.(nextId := s.nextId + 1, reqs := s.reqs[s.nextId := r.(live := true)],
        held := s.held + {s.nextId}))
  {
    NewReq(s, r);
    var t := s.(nextId := s.nextId + 1, held := s.held + {s.nextId});
    var u := s.(nextId := s.nextId + 1);
    assert FineBut(t, s.nextId) by {
      SlotsStay(u, t);
      forall k {:trigger k in t.sockets} | k in t.sockets ensures WsOk(t.sockets[k], k, t.told, t.gen, t.slots) {
        assert k in u.sockets;
      }
    }
    Settled(t, s.nextId, r.(live := true));
  }

  // ---- a socket changes ------------------------------------------------------------------------

  /** Everything holds but for what is known of socket id alone. */
  ghost predicate WsFineBut(s: State, id: nat) {
    && id in s.sockets
    && ReqsOk(s.reqs, s.told, s.gen) && ReqsOk(s.gone, s.told, s.gen) && SlotsOk(s) && IdsOk(s) && QueueOk(s)
    && (forall k {:trigger k in s.sockets} | k in s.sockets && k != id ::
        WsOk(s.sockets[k], k, s.told, s.gen, s.slots) && (s.sockets[k].live ==> k in s.held))
    && (forall k {:trigger k in s.held} | k in s.held && k != id ::
        (k in s.reqs && s.reqs[k].live) || (k in s.sockets && s.sockets[k].live))
    && (forall k {:trigger k in s.reqs} | k in s.reqs :: s.reqs[k].live ==> k in s.held)
  }

  lemma WsAlone(s: State, id: nat)
    requires Invariant(s) && id in s.sockets
    ensures WsFineBut(s, id)
  {
  }

  lemma WsSettled(s: State, id: nat)
    requires WsFineBut(s, id) && WsOk(s.sockets[id], id, s.told, s.gen, s.slots)
    requires s.sockets[id].live <==> id in s.held
    ensures Invariant(s)
  {
  }

  /** The socket may be anything, as long as it stays where it is. */
  lemma WsReplaced(s: State, id: nat, v: Ws, held: set<nat>)
    requires WsFineBut(s, id) && v.slot == s.sockets[id].slot && v.detached == s.sockets[id].detached
    requires held - {id} == s.held - {id}
    ensures WsFineBut(s.(sockets := s.sockets[id := v], held := held), id)
  {
    var t := s.(sockets := s.sockets[id := v], held := held);
    forall i {:trigger SlotOk(t, i)} | 0 <= i < |t.slots| ensures SlotOk(t, i) {
      assert SlotOk(s, i);
    }
    forall k {:trigger k in t.sockets} | k in t.sockets && k != id
      ensures WsOk(t.sockets[k], k, t.told, t.gen, t.slots) && (t.sockets[k].live ==> k in t.held) {
      assert k in s.sockets && (k in s.held <==> k in s.held - {id}) && (k in held <==> k in held - {id});
    }
    forall k {:trigger k in t.held} | k in t.held && k != id
      ensures (k in t.reqs && t.reqs[k].live) || (k in t.sockets && t.sockets[k].live) {
      assert k in held - {id};
      assert k in s.held;
    }
    forall k {:trigger k in t.reqs} | k in t.reqs ensures t.reqs[k].live ==> k in t.held {
      assert k in s.reqs && k != id;
      assert k in s.held - {id} <==> k in held - {id};
    }
  }

  lemma WsTell(s: State, id: nat, n: Note)
    requires WsFineBut(s, id) && n.target == id && n.level == s.gen && !n.what.Done? && !n.what.Failed?
    ensures WsFineBut(Tell(s, n), id)
    ensures InSession(Tell(s, n).told, id) == if n.what.Opened? then true else if n.what.Closed? then false
        else InSession(s.told, id)
  {
    var t := Tell(s, n);
    TellKeepsQueue(s, n);
    TellKeepsReqs(s.reqs, s.told, s.gen, n);
    TellKeepsReqs(s.gone, s.told, s.gen, n);
    OneMore(s.told, n, id);
    SlotsStay(s, t);
    forall k {:trigger k in t.sockets} | k in t.sockets && k != id
      ensures WsOk(t.sockets[k], k, t.told, t.gen, t.slots) && (t.sockets[k].live ==> k in t.held) {
      OneMore(s.told, n, k);
    }
  }

  /** What is known of a socket whose connection is about to end. */
  ghost predicate Ending(s: State, id: nat, w: Ws) {
    && id in s.sockets && w.slot == s.sockets[id].slot && w.detached == s.sockets[id].detached
    && w.level <= s.gen
    && (!w.detached ==> w.level == s.gen && w.slot < |s.slots| && s.slots[w.slot] == Holds(id))
    && (!w.detached && w.hears.open && w.hears.close ==> InSession(s.told, id) == w.connected)
  }

  /** The last word on a connection that was `connected`, if its script hears closes. */
  lemma CloseIsTold(s: State, id: nat, w: Ws, connected: bool, close: Note)
    requires WsFineBut(s, id) && Ending(s, id, w.(connected := connected)) && s.sockets[id] == w && id !in s.held
    requires !w.connected && !w.live && (w.finished || w.waiting) && !w.detached
    requires close.what.Closed? && close.target == id && close.level == s.gen
    ensures Invariant(TellIf(s, connected && w.hears.close, close))
  {
    hide WsFineBut;
    hide Invariant;
    WsTell(s, id, close);
    WsSettled(TellIf(s, connected && w.hears.close, close), id);
  }

  /** The end of a connection is reported by a close exactly when the script heard of its open. */
  lemma WsEndedKeeps(s: State, id: nat, w: Ws)
    requires WsFineBut(s, id) && Ending(s, id, w)
    ensures Invariant(WsEnded(s, id, w))
  {
    hide WsFineBut;
    hide Invariant;
    var again := !w.closing && w.reconnects;
    var v := w.(live := false, connected := false, rx := 0, rxDrop := false, waiting := again,
        finished := w.finished || !again, err := []);
    assert (s.held - {id}) - {id} == s.held - {id};
    WsReplaced(s, id, v, s.held - {id});
    var t := s.(held := s.held - {id}, sockets := s.sockets[id := v]);
    if w.detached {
      WsSettled(t, id);
    } else {
      var error := Note(id, Error, |w.err|, w.level);
      WsTell(t, id, error);
      var u := TellIf(t, w.err != [] && !w.closing && w.hears.error, error);
      CloseIsTold(u, id, v, w.connected, Note(id, Closed(!w.closing && !w.killed, v.finished), 0, w.level));
    }
  }

  lemma WsChanges(s: State, id: nat, v: Ws)
    requires Invariant(s) && id in s.sockets && WsOk(v, id, s.told, s.gen, s.slots)
    requires v.live == s.sockets[id].live && v.slot == s.sockets[id].slot && v.detached == s.sockets[id].detached
    ensures Invariant(s.(sockets := s.sockets[id := v]))
  {
    WsAlone(s, id);
    WsReplaced(s, id, v, s.held);
    assert s.(sockets := s.sockets[id := v], held := s.held) == s.(sockets := s.sockets[id := v]);
    WsSettled(s.(sockets := s.sockets[id := v]), id);
  }

  lemma ConnectKeeps(s: State, id: nat, w: Ws, outcome: Outcome)
    requires WsFineBut(s, id) && Ending(s, id, w) && !w.connected
    ensures Invariant(Connect(s, id, w, outcome))
  {
    hide WsFineBut;
    hide Invariant;
    if outcome.Started? {
      var v := w.(live := true, killed := false, waiting := false);
      assert (s.held + {id}) - {id} == s.held - {id};
      WsReplaced(s, id, v, s.held + {id});
      WsSettled(s.(sockets := s.sockets[id := v], held := s.held + {id}), id);
    } else {
      WsEndedKeeps(s, id, w.(killed := false, waiting := false, err := if w.err == [] then outcome.msg else w.err));
    }
  }

  /** A new socket in a free slot. */
  lemma WsOpenKeeps(s: State, bad: string, outcome: Outcome, reconnects: bool, hears: Hears)
    requires Invariant(s)
    ensures Invariant(WsOpen(s, bad, outcome, reconnects, hears))
  {
    var i := FreeSlot(s.slots);
    if i < |s.slots| {
      var id := s.nextId;
      var w := Ws(s.gen, i, false, false, bad, false, false, false, false, reconnects, false, 0, false, hears);
      var t := s.(nextId := id + 1, slots := s.slots[i := Holds(id)], sockets := s.sockets[id := w]);
      NewSocket(s, i, w);
      hide WsFineBut;
      hide Invariant;
      if bad != [] {
        WsEndedKeeps(t, id, w.(reconnects := false));
      } else {
        ConnectKeeps(t, id, w, outcome);
      }
    }
  }

  lemma NewSocket(s: State, i: nat, w: Ws)
    requires Invariant(s) && i < |s.slots| && s.slots[i] == Empty
    requires w.slot == i && w.level == s.gen && !w.connected && !w.detached
    ensures var t := s.(nextId := s.nextId + 1, slots := s.slots[i := Holds(s.nextId)],
        sockets := s.sockets[s.nextId := w]);
            WsFineBut(t, s.nextId) && Ending(t, s.nextId, w)
  {
    var id := s.nextId;
    var t := s.(nextId := id + 1, slots := s.slots[i := Holds(id)], sockets := s.sockets[id := w]);
    NeverTold(s.told, id);
    forall k {:trigger SlotOk(t, k)} | 0 <= k < |t.slots| ensures SlotOk(t, k) {
      assert SlotOk(s, k);
    }
    forall k {:trigger k in t.sockets} | k in t.sockets && k != id
      ensures WsOk(t.sockets[k], k, t.told, t.gen, t.slots) && (t.sockets[k].live ==> k in t.held) {
      assert k in s.sockets;
    }
  }

  lemma WsEstablishedKeeps(s: State, id: nat)
    requires Invariant(s) && HeldWs(s, id) && !s.sockets[id].connected
    ensures Invariant(Established(s, id, s.sockets[id]))
  {
    WsAlone(s, id);
    HeldIsLive(s, id);
    var w := s.sockets[id];
    hide WsFineBut;
    hide Invariant;
    if !w.closing {
      var v := w.(connected := true);
      WsReplaced(s, id, v, s.held);
      var t := s.(sockets := s.sockets[id := v]);
      assert t == s.(sockets := s.sockets[id := v], held := s.held);
      var n := Note(id, Opened, 0, w.level);
      if !w.detached && w.hears.open {
        WsTell(t, id, n);
      }
      WsSettled(TellIf(t, !w.detached && w.hears.open, n), id);
    }
  }

  lemma HeldIsLive(s: State, id: nat)
    requires Invariant(s) && HeldWs(s, id)
    ensures s.sockets[id].live && WsOk(s.sockets[id], id, s.told, s.gen, s.slots)
  {
  }

  /** The message, if the script hears it. */
  lemma MessageKeeps(s: State, id: nat, bytes: nat, wanted: bool)
    requires Invariant(s) && id in s.sockets && (wanted ==> !s.sockets[id].detached)
    ensures var t := TellIf(s, wanted, Note(id, Message, bytes, s.sockets[id].level));
            Invariant(t) && t.sockets == s.sockets && t.held == s.held
  {
    if wanted {
      NumberIsUsed(s, id);
      assert WsOk(s.sockets[id], id, s.told, s.gen, s.slots);
      PlainNote(s, Note(id, Message, bytes, s.sockets[id].level));
    }
  }

  /** Buffering, emptying the buffer and killing change nothing the script was told of. */
  ghost predicate Alike(v: Ws, w: Ws) {
    && v.live == w.live && v.slot == w.slot && v.detached == w.detached && v.connected == w.connected
        && v.level == w.level
    && v.finished == w.finished && v.waiting == w.waiting && v.hears == w.hears
  }

  lemma AlikeChanges(s: State, id: nat, v: Ws)
    requires Invariant(s) && HeldWs(s, id) && Alike(v, s.sockets[id])
    ensures Invariant(s.(sockets := s.sockets[id := v]))
  {
    HeldIsLive(s, id);
    WsChanges(s, id, v);
  }

  lemma ReceiveKeeps(s: State, id: nat, len: nat, last: bool)
    requires Invariant(s) && HeldWs(s, id)
    ensures Invariant(Receive(s, id, s.sockets[id], len, last))
  {
    hide Invariant;
    hide Buffered;
    hide Killed;
    hide Emptied;
    hide Tell;
    hide Alike;
    var w := s.sockets[id];
    var v := Buffered(w, len);
    BufferedAlike(w, len);
    EmptiedAlike(v, w);
    KilledAlike(Emptied(v), w, RX_FULL);
    if !last {
      AlikeChanges(s, id, v);
    } else {
      var wanted := !v.rxDrop && !v.detached && v.hears.message;
      MessageKeeps(s, id, v.rx, wanted);
      var t := TellIf(s, wanted, Note(id, Message, v.rx, v.level));
      AlikeChanges(t, id, if t.rxBytes > RX_QUEUE_MAX then Killed(Emptied(v), RX_FULL) else Emptied(v));
    }
  }

  lemma BufferedAlike(w: Ws, len: nat)
    ensures Alike(Buffered(w, len), w)
    ensures Buffered(w, len).level == w.level && Buffered(w, len).detached == w.detached
  {
    hide Emptied;
  }

  lemma EmptiedAlike(v: Ws, w: Ws)
    requires Alike(v, w)
    ensures Alike(Emptied(v), w)
  {
  }

  lemma KilledAlike(v: Ws, w: Ws, msg: string)
    requires Alike(v, w)
    ensures Alike(Killed(v, msg), w)
  {
  }

  lemma NumberIsUsed(s: State, id: nat)
    requires Invariant(s) && id in s.sockets
    ensures id < s.nextId
  {
  }

  // ---- levels, delivery, freeing -------------------------------------------------------------------

  lemma LevelChangedReqs(s: State)
    requires Invariant(s)
    ensures var t := LevelChanged(s);
            ReqsOk(t.reqs, t.told, t.gen) && ReqsOk(t.gone, t.told, t.gen)
  {
    var t := LevelChanged(s);
    forall k {:trigger k in t.reqs} | k in t.reqs ensures ReqOk(t.reqs[k], k, t.told, t.gen) {
      assert k in s.reqs;
    }
    forall k {:trigger k in t.gone} | k in t.gone ensures ReqOk(t.gone[k], k, t.told, t.gen) {
      assert k in s.gone;
    }
  }

  lemma LevelChangedSockets(s: State)
    requires Invariant(s)
    ensures SocketsOk(LevelChanged(s)) && HeldOk(LevelChanged(s))
  {
    var t := LevelChanged(s);
    forall k {:trigger k in t.sockets} | k in t.sockets
      ensures WsOk(t.sockets[k], k, t.told, t.gen, t.slots) && (t.sockets[k].live ==> k in t.held) {
      assert k in s.sockets;
      assert !s.sockets[k].detached ==> s.slots[s.sockets[k].slot] in s.slots;
    }
    forall k {:trigger k in t.held} | k in t.held
      ensures (k in t.reqs && t.reqs[k].live) || (k in t.sockets && t.sockets[k].live) {
      assert k in s.held;
    }
  }

  lemma LevelChangedKeeps(s: State)
    requires Invariant(s)
    ensures Invariant(LevelChanged(s))
  {
    LevelChangedReqs(s);
    LevelChangedSockets(s);
    hide WsOk;
    hide ReqOk;
  }

  lemma DeliverKeeps(s: State)
    requires Invariant(s) && s.queue != []
    ensures Invariant(Deliver(s))
  {
    var t := Deliver(s);
    SlotsStay(s, t);
    forall k {:trigger k in t.sockets} | k in t.sockets ensures WsOk(t.sockets[k], k, t.told, t.gen, t.slots) {
      assert k in s.sockets;
    }
  }

  lemma ReapKeepsReqs(s: State)
    requires Invariant(s)
    ensures var t := Reap(s);
            ReqsOk(t.reqs, t.told, t.gen) && ReqsOk(t.gone, t.told, t.gen) && IdsOk(t)
  {
    var t := Reap(s);
    forall k {:trigger k in t.reqs} | k in t.reqs ensures ReqOk(t.reqs[k], k, t.told, t.gen) {
      assert k in s.reqs;
    }
    forall k {:trigger k in t.gone} | k in t.gone ensures ReqOk(t.gone[k], k, t.told, t.gen) {
      assert k in s.gone || k in s.reqs;
    }
  }

  lemma ReapKeepsSockets(s: State)
    requires Invariant(s)
    ensures SocketsOk(Reap(s)) && SlotsOk(Reap(s)) && HeldOk(Reap(s))
  {
    var t := Reap(s);
    forall i {:trigger SlotOk(t, i)} | 0 <= i < |t.slots| ensures SlotOk(t, i) {
      assert SlotOk(s, i);
    }
    forall k {:trigger k in t.sockets} | k in t.sockets
      ensures WsOk(t.sockets[k], k, t.told, t.gen, t.slots) && (t.sockets[k].live ==> k in t.held) {
      assert k in s.sockets;
    }
    forall k {:trigger k in t.held} | k in t.held
      ensures (k in t.reqs && t.reqs[k].live) || (k in t.sockets && t.sockets[k].live) {
      assert k in s.held;
    }
    forall k {:trigger k in t.reqs} | k in t.reqs ensures t.reqs[k].live ==> k in t.held {
      assert k in s.reqs;
    }
  }

  lemma ReapKeeps(s: State)
    requires Invariant(s)
    ensures Invariant(Reap(s))
  {
    ReapKeepsReqs(s);
    ReapKeepsSockets(s);
  }

  // ---- all steps, all runs ---------------------------------------------------------------------------

  lemma ReqStepKeeps(s: State, e: Event)
    requires Invariant(s) && Enabled(s, e) && (e.ReqError? || e.ReqBody? || e.ReqKilled?)
    ensures Invariant(Next(s, e))
  {
    assert ReqOk(s.reqs[e.id], e.id, s.told, s.gen);
    hide Invariant;
    ReqChanges(s, e.id, Next(s, e).reqs[e.id]);
    assert s.reqs == s.reqs[e.id := s.reqs[e.id]];
  }

  lemma WsStepKeeps(s: State, e: Event)
    requires Invariant(s) && Enabled(s, e) && (e.WsError? || e.WsKilled?)
    ensures Invariant(Next(s, e))
  {
    hide Invariant;
    HeldIsLive(s, e.id);
    WsChanges(s, e.id, Next(s, e).sockets[e.id]);
  }

  lemma WsCloseKeeps(s: State, i: nat)
    requires Invariant(s)
    ensures Invariant(WsClose(s, i))
  {
    if i < |s.slots| && s.slots[i].Holds? {
      assert SlotOk(s, i);
      var id := s.slots[i].id;
      assert WsOk(s.sockets[id], id, s.told, s.gen, s.slots);
      WsChanges(s, id, Shut(s.sockets[id]));
    }
  }

  lemma WsAliveKeeps(s: State, e: Event)
    requires Invariant(s) && Enabled(s, e) && (e.WsDestroyed? || e.WsReconnects?)
    ensures Invariant(Next(s, e))
  {
    WsAlone(s, e.id);
    assert WsOk(s.sockets[e.id], e.id, s.told, s.gen, s.slots);
    if e.WsDestroyed? {
      WsEndedKeeps(s, e.id, s.sockets[e.id]);
    } else {
      ConnectKeeps(s, e.id, s.sockets[e.id], e.outcome);
    }
  }

  lemma StepKeeps(s: State, e: Event)
    requires Invariant(s) && Enabled(s, e)
    ensures Invariant(Next(s, e))
  {
    hide Invariant;
    match e
    case DoFetch(bad, outcome, hasDone, hasError) => FetchKeeps(s, bad, outcome, hasDone, hasError);
    case DoWsOpen(bad, outcome, reconnects, hears) => WsOpenKeeps(s, bad, outcome, reconnects, hears);
    case DoWsClose(slot) => WsCloseKeeps(s, slot);
    case DoLevelChanged => LevelChangedKeeps(s);
    case ReqDestroyed(id) => ReqEndedKeeps(s, id);
    case ReqError(_, _, _) => ReqStepKeeps(s, e);
    case ReqBody(_, _) => ReqStepKeeps(s, e);
    case ReqCompleted(id) => ReqCompletedKeeps(s, id);
    case ReqKilled(_, _) => ReqStepKeeps(s, e);
    case WsDestroyed(_) => WsAliveKeeps(s, e);
    case WsError(_, _) => WsStepKeeps(s, e);
    case WsEstablished(id) => WsEstablishedKeeps(s, id);
    case WsReceives(id, len, last) => ReceiveKeeps(s, id, len, last);
    case WsKilled(_, _) => WsStepKeeps(s, e);
    case WsReconnects(_, _) => WsAliveKeeps(s, e);
    case DoDeliver => DeliverKeeps(s);
    case DoReap => ReapKeeps(s);
  }

  lemma StartHolds()
    ensures Invariant(Start())
  {
  }

  ghost predicate IsRun(states: seq<State>, events: seq<Event>) {
    && |states| == |events| + 1 && states[0] == Start()
    && forall i :: 0 <= i < |events| ==> Enabled(states[i], events[i]) && states[i + 1] == Next(states[i], events[i])
  }

  lemma {:induction false} RunKeeps(states: seq<State>, events: seq<Event>, i: nat)
    requires IsRun(states, events) && i < |states|
    ensures Invariant(states[i])
  {
    hide Invariant;
    hide Next;
    hide Enabled;
    if i == 0 {
      StartHolds();
    } else {
      RunKeeps(states, events, i - 1);
      StepKeeps(states[i - 1], events[i - 1]);
    }
  }

  /**
   No request is told twice; one that has ended has been told once, unless the level changed or
   it lacks a callback.
   */
  lemma OneOutcome(states: seq<State>, events: seq<Event>, i: nat, id: nat)
    requires IsRun(states, events) && i < |states| && (id in states[i].reqs || id in states[i].gone)
    ensures var s := states[i];
            var r := if id in s.reqs then s.reqs[id] else s.gone[id];
            && Outcomes(s.told, id) <= 1
            && (!r.live && r.level == s.gen && r.hasDone && r.hasError ==> Outcomes(s.told, id) == 1)
  {
    RunKeeps(states, events, i);
  }

  /** Everything the library holds is in memory, and no slot names a freed socket. */
  lemma NothingFreedEarly(states: seq<State>, events: seq<Event>, i: nat)
    requires IsRun(states, events) && i < |states|
    ensures forall id | id in states[i].held :: id in states[i].reqs || id in states[i].sockets
    ensures forall k :: 0 <= k < |states[i].slots| && states[i].slots[k].Holds? ==>
        states[i].slots[k].id in states[i].sockets
  {
    var s := states[i];
    RunKeeps(states, events, i);
    forall k | 0 <= k < |s.slots| && s.slots[k].Holds? ensures s.slots[k].id in s.sockets {
      assert SlotOk(s, k);
    }
  }

  // ---- nothing of an earlier level is heard -----------------------------------------------------------

  /** Every connection and queued callback of a level from `gen` on is of a number from `first` on. */
  ghost predicate MadeSince(s: State, gen: nat, first: nat) {
    && gen <= s.gen && first <= s.nextId
    && (forall id {:trigger id in s.reqs} | id in s.reqs :: s.reqs[id].level >= gen ==> id >= first)
    && (forall id {:trigger id in s.sockets} | id in s.sockets :: s.sockets[id].level >= gen ==> id >= first)
    && (forall k :: 0 <= k < |s.queue| && s.queue[k].level >= gen ==> s.queue[k].target >= first)
  }

  lemma LevelStarts(s: State)
    requires Invariant(s)
    ensures MadeSince(LevelChanged(s), s.gen + 1, s.nextId)
  {
    var t := LevelChanged(s);
    forall id {:trigger id in t.sockets} | id in t.sockets ensures t.sockets[id].level <= s.gen {
      assert id in s.sockets;
    }
  }

  /** A connection of this number and level may be there. */
  predicate May(level: nat, id: nat, gen: nat, first: nat) {
    level >= gen ==> id >= first
  }

  lemma MadeReq(s: State, id: nat, r: Req, gen: nat, first: nat)
    requires MadeSince(s, gen, first) && May(r.level, id, gen, first)
    ensures MadeSince(s.(reqs := s.reqs[id := r]), gen, first)
  {
  }

  lemma MadeWs(s: State, id: nat, w: Ws, gen: nat, first: nat)
    requires MadeSince(s, gen, first) && May(w.level, id, gen, first)
    ensures MadeSince(s.(sockets := s.sockets[id := w]), gen, first)
  {
  }

  lemma MadeTell(s: State, wanted: bool, n: Note, gen: nat, first: nat)
    requires MadeSince(s, gen, first) && May(n.level, n.target, gen, first)
    ensures MadeSince(TellIf(s, wanted, n), gen, first)
  {
  }

  /** What the library holds is of no account here. */
  lemma MadeHeld(s: State, held: set<nat>, gen: nat, first: nat)
    requires MadeSince(s, gen, first)
    ensures MadeSince(s.(held := held), gen, first)
  {
  }

  lemma MadeFinish(s: State, id: nat, r: Req, gen: nat, first: nat)
    requires MadeSince(s, gen, first) && May(r.level, id, gen, first)
    ensures MadeSince(Finish(s, id, r), gen, first)
  {
    hide MadeSince;
    hide TellIf;
    MadeReq(s, id, r, gen, first);
    var done := r.(reported := true);
    MadeReq(s, id, done, gen, first);
    var t := s.(reqs := s.reqs[id := done]);
    MadeTell(t, r.hasDone, Note(id, Done, r.body, r.level), gen, first);
    MadeTell(t, r.hasError, Note(id, Failed, |r.err|, r.level), gen, first);
  }

  lemma MadeReqEnded(s: State, id: nat, r: Req, gen: nat, first: nat)
    requires MadeSince(s, gen, first) && May(r.level, id, gen, first)
    ensures MadeSince(ReqEnded(s, id, r), gen, first)
  {
    hide Finish;
    MadeHeld(s, s.held - {id}, gen, first);
    var v := r.(live := false, err := if r.err == [] then UNEXPECTED else r.err);
    MadeFinish(s.(held := s.held - {id}), id, v, gen, first);
  }

  lemma MadeWsEnded(s: State, id: nat, w: Ws, gen: nat, first: nat)
    requires MadeSince(s, gen, first) && May(w.level, id, gen, first)
    ensures MadeSince(WsEnded(s, id, w), gen, first)
  {
    hide MadeSince;
    hide TellIf;
    var again := !w.closing && w.reconnects;
    var v := w.(live := false, connected := false, rx := 0, rxDrop := false, waiting := again,
        finished := w.finished || !again, err := []);
    MadeHeld(s, s.held - {id}, gen, first);
    MadeWs(s.(held := s.held - {id}), id, v, gen, first);
    var t := s.(held := s.held - {id}, sockets := s.sockets[id := v]);
    var error := Note(id, Error, |w.err|, w.level);
    var wanted := w.err != [] && !w.closing && w.hears.error;
    MadeTell(t, wanted, error, gen, first);
    MadeTell(TellIf(t, wanted, error), w.connected && w.hears.close,
        Note(id, Closed(!w.closing && !w.killed, v.finished), 0, w.level), gen, first);
  }

  lemma MadeConnect(s: State, id: nat, w: Ws, outcome: Outcome, gen: nat, first: nat)
    requires MadeSince(s, gen, first) && May(w.level, id, gen, first)
    ensures MadeSince(Connect(s, id, w, outcome), gen, first)
  {
    hide WsEnded;
    if outcome.Started? {
      MadeHeld(s, s.held + {id}, gen, first);
      MadeWs(s.(held := s.held + {id}), id, w.(live := true, killed := false, waiting := false), gen, first);
    } else {
      var v := w.(killed := false, waiting := false, err := if w.err == [] then outcome.msg else w.err);
      MadeWsEnded(s, id, v, gen, first);
    }
  }

  lemma MadeFetch(s: State, e: Event, gen: nat, first: nat)
    requires MadeSince(s, gen, first) && e.DoFetch?
    ensures MadeSince(Fetch(s, e.bad, e.outcome, e.hasDone, e.hasError), gen, first)
  {
    hide Finish;
    hide ReqEnded;
    var id, r := s.nextId, Req(s.gen, false, false, e.bad, false, 0, e.hasDone, e.hasError);
    var t := s.(nextId := id + 1);
    assert MadeSince(t, gen, first);
    MadeFinish(t, id, r, gen, first);
    if e.outcome.NotStarted? {
      MadeReqEnded(t, id, r.(err := e.outcome.msg), gen, first);
    }
  }

  lemma MadeWsOpen(s: State, e: Event, gen: nat, first: nat)
    requires MadeSince(s, gen, first) && e.DoWsOpen?
    ensures MadeSince(WsOpen(s, e.bad, e.outcome, e.reconnects, e.hears), gen, first)
  {
    hide WsEnded;
    hide Connect;
    var i := FreeSlot(s.slots);
    if i < |s.slots| {
      var id := s.nextId;
      var w := Ws(s.gen, i, false, false, e.bad, false, false, false, false, e.reconnects, false, 0, false, e.hears);
      var t := s.(nextId := id + 1, slots := s.slots[i := Holds(id)], sockets := s.sockets[id := w]);
      assert MadeSince(t, gen, first);
      MadeWsEnded(t, id, w.(reconnects := false), gen, first);
      MadeConnect(t, id, w, e.outcome, gen, first);
    }
  }

  lemma MadeReceive(s: State, id: nat, w: Ws, len: nat, last: bool, gen: nat, first: nat)
    requires MadeSince(s, gen, first) && May(w.level, id, gen, first)
    ensures MadeSince(Receive(s, id, w, len, last), gen, first)
  {
    hide MadeSince;
    hide TellIf;
    var v := Buffered(w, len);
    MadeWs(s, id, v, gen, first);
    var wanted := !v.rxDrop && !v.detached && v.hears.message;
    MadeTell(s, wanted, Note(id, Message, v.rx, v.level), gen, first);
    var t := TellIf(s, wanted, Note(id, Message, v.rx, v.level));
    MadeWs(t, id, Emptied(v), gen, first);
    MadeWs(t, id, Killed(Emptied(v), RX_FULL), gen, first);
  }

  lemma MadeEstablished(s: State, id: nat, w: Ws, gen: nat, first: nat)
    requires MadeSince(s, gen, first) && May(w.level, id, gen, first)
    ensures MadeSince(Established(s, id, w), gen, first)
  {
    hide MadeSince;
    hide TellIf;
    var v := w.(connected := true);
    MadeWs(s, id, v, gen, first);
    var t := s.(sockets := s.sockets[id := v]);
    MadeTell(t, !w.detached && w.hears.open, Note(id, Opened, 0, w.level), gen, first);
  }

  lemma MadeFrame(s: State, e: Event, gen: nat, first: nat)
    requires Enabled(s, e) && MadeSince(s, gen, first) && (e.DoLevelChanged? || e.DoDeliver? || e.DoReap?)
    ensures MadeSince(Next(s, e), gen, first)
  {
    hide Shut;
    hide ReqDone;
    hide WsDone;
    ShutKeepsLevels();
    var t := Next(s, e);
    forall id {:trigger id in t.sockets} | id in t.sockets ensures t.sockets[id].level >= gen ==> id >= first {
      assert id in s.sockets;
    }
  }

  lemma ShutKeepsLevels()
    ensures forall w :: Shut(w).level == w.level
  {
  }

  /** An event that changes a request but not its level. */
  lemma MadeReqStep(s: State, e: Event, gen: nat, first: nat)
    requires Enabled(s, e) && MadeSince(s, gen, first) && (e.ReqError? || e.ReqBody? || e.ReqKilled?)
    ensures MadeSince(Next(s, e), gen, first)
  {
    MadeReq(s, e.id, Next(s, e).reqs[e.id], gen, first);
    hide MadeSince;
    assert s.reqs == s.reqs[e.id := s.reqs[e.id]];
  }

  /** The same for a socket. */
  lemma MadeWsStep(s: State, e: Event, gen: nat, first: nat)
    requires Enabled(s, e) && MadeSince(s, gen, first) && (e.WsError? || e.WsKilled?)
    ensures MadeSince(Next(s, e), gen, first)
  {
    MadeWs(s, e.id, Next(s, e).sockets[e.id], gen, first);
    hide MadeSince;
  }

  lemma MadeWsClose(s: State, i: nat, gen: nat, first: nat)
    requires MadeSince(s, gen, first)
    ensures MadeSince(WsClose(s, i), gen, first)
  {
    if i < |s.slots| && s.slots[i].Holds? && s.slots[i].id in s.sockets {
      MadeWs(s, s.slots[i].id, Shut(s.sockets[s.slots[i].id]), gen, first);
    }
  }

  lemma StepKeepsMade(s: State, e: Event, gen: nat, first: nat)
    requires Enabled(s, e) && MadeSince(s, gen, first)
    ensures MadeSince(Next(s, e), gen, first)
  {
    hide Finish;
    hide ReqEnded;
    hide WsEnded;
    hide Fetch;
    hide WsOpen;
    hide WsClose;
    hide Connect;
    hide Receive;
    hide Established;
    match e
    case DoFetch(_, _, _, _) => MadeFetch(s, e, gen, first);
    case DoWsOpen(_, _, _, _) => MadeWsOpen(s, e, gen, first);
    case DoWsClose(slot) => MadeWsClose(s, slot, gen, first);
    case ReqDestroyed(id) => MadeReqEnded(s, id, s.reqs[id], gen, first);
    case ReqCompleted(id) => MadeFinish(s, id, s.reqs[id], gen, first);
    case ReqError(_, _, _) => MadeReqStep(s, e, gen, first);
    case ReqBody(_, _) => MadeReqStep(s, e, gen, first);
    case ReqKilled(_, _) => MadeReqStep(s, e, gen, first);
    case WsDestroyed(id) => MadeWsEnded(s, id, s.sockets[id], gen, first);
    case WsError(_, _) => MadeWsStep(s, e, gen, first);
    case WsEstablished(id) => MadeEstablished(s, id, s.sockets[id], gen, first);
    case WsReceives(id, len, last) => MadeReceive(s, id, s.sockets[id], len, last, gen, first);
    case WsKilled(_, _) => MadeWsStep(s, e, gen, first);
    case WsReconnects(id, outcome) => MadeConnect(s, id, s.sockets[id], outcome, gen, first);
    case _ => MadeFrame(s, e, gen, first);
  }

  lemma {:induction false} RunKeepsMade(states: seq<State>, events: seq<Event>, j: nat, i: nat)
    requires IsRun(states, events) && j < i < |states| && events[j] == DoLevelChanged
    ensures MadeSince(states[i], states[j].gen + 1, states[j].nextId)
  {
    hide Invariant;
    hide Next;
    hide MadeSince;
    if i == j + 1 {
      RunKeeps(states, events, j);
      LevelStarts(states[j]);
      LevelStep(states[j]);
    } else {
      RunKeepsMade(states, events, j, i - 1);
      StepKeepsMade(states[i - 1], events[i - 1], states[j].gen + 1, states[j].nextId);
    }
  }

  lemma LevelStep(s: State)
    ensures Next(s, DoLevelChanged) == LevelChanged(s)
  {
  }

  /**
   What is delivered comes from a request or socket made in the level that runs: after every
   level change there has been.
   */
  lemma NoOldCallbacks(states: seq<State>, events: seq<Event>, i: nat)
    requires IsRun(states, events) && i < |events| && events[i] == DoDeliver
    ensures states[i].queue != [] && states[i].queue[0].level == states[i].gen
    ensures forall j :: 0 <= j < i && events[j] == DoLevelChanged ==> states[i].queue[0].target >= states[j].nextId
  {
    RunKeeps(states, events, i);
    assert Enabled(states[i], events[i]);
    hide Next;
    forall j | 0 <= j < i && events[j] == DoLevelChanged ensures states[i].queue[0].target >= states[j].nextId {
      RunKeepsMade(states, events, j, i);
    }
  }

  /** The byte count of undelivered messages is that of the queue. */
  lemma BytesAreCounted(states: seq<State>, events: seq<Event>, i: nat)
    requires IsRun(states, events) && i < |states|
    ensures states[i].rxBytes == MessageBytes(states[i].queue)
  {
    RunKeeps(states, events, i);
  }

  /** A script that hears opens and closes is between the two exactly while its socket is connected. */
  lemma SessionsMatch(states: seq<State>, events: seq<Event>, i: nat, id: nat)
    requires IsRun(states, events) && i < |states| && id in states[i].sockets
    requires var w := states[i].sockets[id]; !w.detached && w.hears.open && w.hears.close
    ensures InSession(states[i].told, id) == states[i].sockets[id].connected
  {
    RunKeeps(states, events, i);
  }
}
