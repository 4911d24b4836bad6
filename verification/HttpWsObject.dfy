/**
 The client object itself (code/http_websocket_client.hpp, 74-188, 477-651, 953-985): its
 methods change the connections, the slots and the queue as the protocol of HttpWs says,
 and keep its invariant.
 */
module HttpWsObject {
  import opened HttpWs

  class HttpWsClient {
    var reqs: map<nat, Req>
    var sockets: map<nat, Ws>
    const slots: array<Slot>
    var events: seq<Note>
    var rxBytes: int
    var gen: nat
    /** Stands for the addresses of new connections. */
    var nextId: nat
    ghost var held: set<nat>
    ghost var told: seq<Note>
    ghost var gone: map<nat, Req>

    ghost function View(): State
      reads this, slots
    {
      State(reqs, sockets, slots[..], events, rxBytes, gen, nextId, held, told, gone)
    }

    constructor ()
      ensures View() == Start() && Invariant(View()) && fresh(slots)
    {
      reqs, sockets, events, rxBytes, gen, nextId := map[], map[], [], 0, 0, 0;
      held, told, gone := {}, [], map[];
      slots := new Slot[MAX_SLOTS](i => Empty);
      new;
      assert slots[..] == Start().slots;
      StartHolds();
    }

    method Queue(n: Note)
      modifies this`events, this`rxBytes, this`told
      ensures View() == Tell(old(View()), n)
    {
      if n.what.Message? {
        rxBytes := rxBytes + n.bytes;
      }
      events := events + [n];
      told := told + [n];
    }

    /** Reports a request's outcome once; r is the request as it is now. */
    method FinishReq(id: nat, r: Req)
      modifies this`reqs, this`events, this`rxBytes, this`told
      ensures View() == Finish(old(View()), id, r)
    {
      if r.reported {
        reqs := reqs[id := r];
        return;
      }
      reqs := reqs[id := r.(reported := true)];
      if r.level != gen {
        return;
      }
      if r.err == [] {
        if r.hasDone {
          Queue(Note(id, Done, r.body, r.level));
        }
      } else if r.hasError {
        Queue(Note(id, Failed, |r.err|, r.level));
      }
    }

    /** The connection of a request is gone. */
    method EndReq(id: nat, r: Req)
      modifies this`reqs, this`events, this`rxBytes, this`told, this`held
      ensures View() == ReqEnded(old(View()), id, r)
    {
      held := held - {id};
      FinishReq(id, r.(live := false, err := if r.err == [] then UNEXPECTED else r.err));
    }

    /** The connection of a socket is gone, or could not be made. */
    method EndWs(id: nat, w: Ws)
      modifies this`sockets, this`events, this`rxBytes, this`told, this`held
      ensures View() == WsEnded(old(View()), id, w)
    {
      var byRemote := !w.closing && !w.killed;
      var again := !w.closing && w.reconnects;
      var finished := w.finished || !again;
      held := held - {id};
      sockets := sockets[id := w.(live := false, connected := false, rx := 0, rxDrop := false, waiting := again,
          finished := finished, err := [])];
      if !w.detached {
        if w.err != [] && !w.closing && w.hears.error {
          Queue(Note(id, Error, |w.err|, w.level));
        }
        if w.connected && w.hears.close {
          Queue(Note(id, Closed(byRemote, finished), 0, w.level));
        }
      }
    }

    /** A new request; `bad` is what is wrong with its arguments. */
    method FetchUrl(bad: string, outcome: Outcome, hasDone: bool, hasError: bool)
      requires slots.Length == MAX_SLOTS && Invariant(View())
      modifies this
      ensures Invariant(View()) && View() == Fetch(old(View()), bad, outcome, hasDone, hasError)
    {
      hide Invariant;
      hide Finish;
      FetchKeeps(View(), bad, outcome, hasDone, hasError);
      NewId(View());
      var id, r := nextId, Req(gen, false, false, bad, false, 0, hasDone, hasError);
      nextId := nextId + 1;
      if bad != [] {
        RejectFetch(id, r);
      } else if outcome.Started? {
        reqs := reqs[id := r.(live := true)];
        held := held + {id};
      } else {
        EndReq(id, r.(err := outcome.msg));
      }
    }

    /** Reports what is wrong and frees the request at once. */
    method RejectFetch(id: nat, r: Req)
      requires id !in reqs
      modifies this`reqs, this`events, this`rxBytes, this`told, this`gone
      ensures View() == Finish(old(View()), id, r).(reqs := old(reqs), gone := old(gone)[id := r.(reported := true)])
    {
      FinishReq(id, r);
      reqs := reqs - {id};
      gone := gone[id := r.(reported := true)];
      assert reqs == old(reqs);
    }

    /** Opens a socket in the first free slot; -1 if there is none. */
    method OpenSocket(bad: string, outcome: Outcome, reconnects: bool, hears: Hears) returns (slot: int)
      requires slots.Length == MAX_SLOTS && Invariant(View())
      modifies this, slots
      ensures Invariant(View()) && View() == WsOpen(old(View()), bad, outcome, reconnects, hears)
      ensures slot == if FreeSlot(old(slots[..])) == MAX_SLOTS then -1 else FreeSlot(old(slots[..]))
    {
      hide Invariant;
      hide WsEnded;
      hide Connect;
      WsOpenKeeps(View(), bad, outcome, reconnects, hears);
      var i := FindFreeSlot();
      if i == MAX_SLOTS {
        return -1;
      }
      slot := i;
      var id := nextId;
      var w := Ws(gen, i, false, false, bad, false, false, false, false, reconnects, false, 0, false, hears);
      nextId := nextId + 1;
      sockets := sockets[id := w];
      slots[i] := Holds(id);
      assert slots[..] == old(slots[..])[i := Holds(id)];
      if bad != [] {
        EndWs(id, w.(reconnects := false));
      } else {
        ConnectSocket(id, w, outcome);
      }
    }

    method FindFreeSlot() returns (i: nat)
      requires slots.Length == MAX_SLOTS
      ensures i == FreeSlot(slots[..])
    {
      i := 0;
      while i < MAX_SLOTS && slots[i] != Empty
        invariant 0 <= i <= MAX_SLOTS && FreeSlot(slots[..]) == i + FreeSlot(slots[i..])
      {
        assert slots[i..][1..] == slots[i + 1..];
        i := i + 1;
      }
    }

    /** Hands a socket to the library. */
    method ConnectSocket(id: nat, w: Ws, outcome: Outcome)
      modifies this`sockets, this`events, this`rxBytes, this`told, this`held
      ensures View() == Connect(old(View()), id, w, outcome)
    {
      hide WsEnded;
      if outcome.Started? {
        sockets := sockets[id := w.(live := true, killed := false, waiting := false)];
        held := held + {id};
      } else {
        EndWs(id, w.(killed := false, waiting := false, err := if w.err == [] then outcome.msg else w.err));
      }
    }

    /** Closes the socket of a slot; false if there is none. */
    method CloseSocket(i: int) returns (known: bool)
      requires slots.Length == MAX_SLOTS && Invariant(View())
      modifies this`sockets
      ensures Invariant(View())
      ensures known <==> 0 <= i < MAX_SLOTS && slots[i] != Empty
      ensures View() == if known then WsClose(old(View()), i) else old(View())
    {
      hide Invariant;
      known := 0 <= i < MAX_SLOTS && slots[i] != Empty;
      if known {
        WsCloseKeeps(View(), i);
        SlotNamesSocket(View(), i);
        var id := slots[i].id;
        var w := ShutSocket(sockets[id]);
        sockets := sockets[id := w];
      }
    }

    /** ws_shut. */
    method ShutSocket(w: Ws) returns (v: Ws)
      ensures v == Shut(w)
    {
      v := w.(closing := true);
      if !w.live {
        v := v.(finished := true);
      } else if !w.connected && !w.killed {
        v := v.(killed := true);
      }
    }

    /** New level: everything meant for the old one is dropped. */
    method ChangeLevel()
      requires slots.Length == MAX_SLOTS && Invariant(View())
      modifies this, slots
      ensures Invariant(View()) && View() == LevelChanged(old(View()))
    {
      hide Invariant;
      hide PartlyDetached;
      hide Shut;
      ghost var was := View();
      LevelChangedKeeps(was);
      NoneDetached(was);
      gen := gen + 1;
      events := [];
      rxBytes := 0;
      for i := 0 to MAX_SLOTS
        invariant gen == was.gen + 1 && events == [] && rxBytes == 0 && reqs == was.reqs && nextId == was.nextId
        invariant held == was.held && told == was.told && gone == was.gone
        invariant forall k :: 0 <= k < MAX_SLOTS ==> slots[k] == if k < i then Empty else was.slots[k]
        invariant PartlyDetached(was, sockets, i)
      {
        DetachStep(was, sockets, i);
        if slots[i] != Empty {
          var id := slots[i].id;
          var w := ShutSocket(sockets[id].(detached := true));
          sockets := sockets[id := w];
          slots[i] := Empty;
        }
      }
      AllDetached(was, sockets);
      assert slots[..] == seq(MAX_SLOTS, i => Empty);
    }

    /** LWS_CALLBACK_CLIENT_ESTABLISHED; false asks the library to close. */
    method EstablishSocket(id: nat) returns (keep: bool)
      requires slots.Length == MAX_SLOTS && Invariant(View()) && HeldWs(View(), id) && !sockets[id].connected
      modifies this`sockets, this`events, this`rxBytes, this`told
      ensures Invariant(View()) && View() == Established(old(View()), id, old(sockets[id]))
      ensures keep <==> !old(sockets[id]).closing
    {
      hide Invariant;
      WsEstablishedKeeps(View(), id);
      var w := sockets[id];
      keep := !w.closing;
      if keep {
        sockets := sockets[id := w.(connected := true)];
        if !w.detached && w.hears.open {
          Queue(Note(id, Opened, 0, w.level));
        }
      }
    }

    /** LWS_CALLBACK_CLIENT_RECEIVE of a text frame. */
    method ReceivePart(id: nat, len: nat, last: bool)
      requires slots.Length == MAX_SLOTS && Invariant(View()) && HeldWs(View(), id)
      modifies this`sockets, this`events, this`rxBytes, this`told
      ensures Invariant(View()) && View() == Receive(old(View()), id, old(sockets[id]), len, last)
    {
      hide Invariant;
      hide Killed;
      ReceiveKeeps(View(), id, len, last);
      var w := Buffer(sockets[id], len);
      if !last {
        sockets := sockets[id := w];
        return;
      }
      if !w.rxDrop && !w.detached && w.hears.message {
        Queue(Note(id, Message, w.rx, w.level));
      }
      w := w.(rx := 0, rxDrop := false);
      if rxBytes > RX_QUEUE_MAX {
        w := Killed(w, RX_FULL);
      }
      sockets := sockets[id := w];
    }

    method Buffer(w: Ws, len: nat) returns (v: Ws)
      ensures v == Buffered(w, len)
    {
      var rx, rxDrop := w.rx, w.rxDrop;
      if !rxDrop {
        if rx + len > MAX_STRING {
          rxDrop := true;
          rx := 0;
        } else {
          rx := rx + len;
        }
      }
      v := w.(rx := rx, rxDrop := rxDrop);
    }

    /** Frees what has ended and been reported, and empties the slots of freed sockets. */
    method ReapAll()
      requires slots.Length == MAX_SLOTS && Invariant(View())
      modifies this`reqs, this`sockets, this`gone, slots
      ensures Invariant(View()) && View() == Reap(old(View()))
    {
      hide Invariant;
      hide Reap;
      ghost var was := View();
      ReapKeeps(was);
      ReapReqs();
      ReapSockets();
      ReapIs(was, View());
    }

    method ReapReqs()
      modifies this`reqs, this`gone
      ensures ReqsReaped(old(reqs), old(gone), reqs, gone, old(reqs).Keys)
    {
      var left := reqs.Keys;
      while left != {}
        invariant left <= old(reqs).Keys && left <= reqs.Keys
        invariant ReqsReaped(old(reqs), old(gone), reqs, gone, old(reqs).Keys - left)
        decreases left
      {
        var id :| id in left;
        if !reqs[id].live && reqs[id].reported {
          gone := gone[id := reqs[id]];
          reqs := reqs - {id};
        }
        left := left - {id};
      }
    }

    method ReapSockets()
      requires slots.Length == MAX_SLOTS
      modifies this`sockets, slots
      ensures SocketsReaped(old(sockets), old(slots[..]), sockets, slots[..], old(sockets).Keys)
    {
      var left := sockets.Keys;
      while left != {}
        invariant left <= old(sockets).Keys && left <= sockets.Keys
        invariant SocketsReaped(old(sockets), old(slots[..]), sockets, slots[..], old(sockets).Keys - left)
        decreases left
      {
        var id :| id in left;
        if !sockets[id].live && sockets[id].finished {
          EmptySlots(id);
          sockets := sockets - {id};
        }
        left := left - {id};
      }
    }

    method EmptySlots(id: nat)
      modifies slots
      ensures forall i :: 0 <= i < slots.Length ==>
          slots[i] == if old(slots[i]) == Holds(id) then Empty else old(slots[i])
    {
      for i := 0 to slots.Length
        invariant forall k :: 0 <= k < slots.Length ==>
          slots[k] == if k < i && old(slots[k]) == Holds(id) then Empty else old(slots[k])
      {
        if slots[i] == Holds(id) {
          slots[i] := Empty;
        }
      }
    }

    /** One queued callback; the script it runs may call any method. */
    method DeliverNext() returns (n: Note)
      requires slots.Length == MAX_SLOTS && Invariant(View()) && events != []
      modifies this`events, this`rxBytes
      ensures Invariant(View()) && View() == Deliver(old(View()))
      ensures n == old(events)[0] && n.level == gen
    {
      hide Invariant;
      DeliverKeeps(View());
      FirstIsCurrent(View());
      n := events[0];
      events := events[1..];
      if n.what.Message? {
        rxBytes := rxBytes - n.bytes;
      }
    }
  }

  /** The requests among `seen` that are done have gone. */
  ghost predicate ReqsReaped(was: map<nat, Req>, gone: map<nat, Req>, reqs: map<nat, Req>, gone': map<nat, Req>,
      seen: set<nat>) {
    && (forall id :: id in reqs <==> id in was && !(id in seen && ReqDone(was[id])))
    && (forall id | id in reqs :: reqs[id] == was[id])
    && (forall id :: id in gone' <==> id in gone || (id in seen && id in was && ReqDone(was[id])))
    && (forall id | id in gone' ::
        gone'[id] == if id in seen && id in was && ReqDone(was[id]) then was[id] else gone[id])
  }

  /** The sockets among `seen` that are done have gone, and their slots are empty. */
  ghost predicate SocketsReaped(was: map<nat, Ws>, slots: seq<Slot>, sockets: map<nat, Ws>, slots': seq<Slot>,
      seen: set<nat>) {
    && (forall id :: id in sockets <==> id in was && !(id in seen && WsDone(was[id])))
    && (forall id | id in sockets :: sockets[id] == was[id])
    && |slots'| == |slots|
    && forall i :: 0 <= i < |slots| ==>
      slots'[i] == if slots[i].Holds? && slots[i].id in seen && slots[i].id in was
          && WsDone(was[slots[i].id]) then Empty else slots[i]
  }

  lemma ReapIs(s: State, t: State)
    requires t == s.(reqs := t.reqs, gone := t.gone, sockets := t.sockets, slots := t.slots)
    requires ReqsReaped(s.reqs, s.gone, t.reqs, t.gone, s.reqs.Keys)
    requires SocketsReaped(s.sockets, s.slots, t.sockets, t.slots, s.sockets.Keys)
    ensures t == Reap(s)
  {
    var r := Reap(s);
    assert t.reqs == r.reqs;
    assert t.gone == r.gone;
    assert t.sockets == r.sockets;
    assert t.slots == r.slots;
  }

  lemma SlotNamesSocket(s: State, i: nat)
    requires Invariant(s) && i < |s.slots| && s.slots[i] != Empty
    ensures s.slots[i].id in s.sockets
  {
    assert SlotOk(s, i);
  }

  lemma FirstIsCurrent(s: State)
    requires Invariant(s) && s.queue != []
    ensures s.queue[0].level == s.gen
  {
  }

  /** The sockets of the first i slots are detached and shut, the others are as they were. */
  ghost predicate PartlyDetached(s: State, sockets: map<nat, Ws>, i: nat)
    requires i <= |s.slots|
  {
    && sockets.Keys == s.sockets.Keys
    && forall id | id in s.sockets ::
        sockets[id] == if Holds(id) in s.slots[..i] then Shut(s.sockets[id].(detached := true)) else s.sockets[id]
  }

  lemma NoneDetached(s: State)
    ensures PartlyDetached(s, s.sockets, 0)
  {
  }

  lemma DetachStep(s: State, sockets: map<nat, Ws>, i: nat)
    requires Invariant(s) && i < |s.slots| && PartlyDetached(s, sockets, i)
    ensures s.slots[i] == Empty ==> PartlyDetached(s, sockets, i + 1)
    ensures s.slots[i] != Empty ==>
      var id := s.slots[i].id;
      && id in sockets && sockets[id] == s.sockets[id]
      && PartlyDetached(s, sockets[id := Shut(sockets[id].(detached := true))], i + 1)
  {
    hide Invariant;
    hide Shut;
    assert s.slots[..i + 1] == s.slots[..i] + [s.slots[i]];
    if s.slots[i] != Empty {
      SlotNamesSocket(s, i);
      OneSlotEach(s, i);
    }
  }

  lemma OneSlotEach(s: State, i: nat)
    requires Invariant(s) && i < |s.slots| && s.slots[i] != Empty
    ensures s.slots[i] !in s.slots[..i]
  {
    assert SlotOk(s, i);
    forall k | 0 <= k < i ensures s.slots[k] != s.slots[i] {
      assert SlotOk(s, k);
    }
  }

  lemma AllDetached(s: State, sockets: map<nat, Ws>)
    requires |s.slots| == MAX_SLOTS && PartlyDetached(s, sockets, MAX_SLOTS)
    ensures sockets == LevelChanged(s).sockets
  {
    assert s.slots[..MAX_SLOTS] == s.slots;
  }

  lemma NewId(s: State)
    requires Invariant(s)
    ensures s.nextId !in s.reqs && s.nextId !in s.sockets
  {
  }
}
