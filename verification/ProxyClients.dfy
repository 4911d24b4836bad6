/**
 The client slots of a proxy (code/proxy/proxy.c, 902-1036 and 1628-1649): the receive
 loop gives slots to client threads, and threads give them up when they end. Both hold
 the proxy's lock, so packets and exits interleave as whole steps.

 A slot goes to whoever sent last among clients that hash to it. The thread that had it
 lives on until its socket times out.
 */
module ProxyClients {

  const MAX_CLIENT_THREADS: nat := 65536
  const NO_SOCKET: int := -1
  const GENERATIONS: nat := 0x1_0000_0000

  /** `identifier` is left behind when a thread could not be started. */
  datatype Slot = Slot(socket: int, identifier: nat, generation: nat)

  /** The arguments a client thread was started with, and whose packets it forwards. */
  datatype Client = Client(index: nat, socket: int, generation: nat, active: bool, identifier: nat)

  /** `owner` names the thread of every open socket; `created` and `closed` count the calls of socket() and close(). */
  datatype State = State(
    slots: seq<Slot>, numClients: int, threads: map<nat, Client>,
    owner: map<int, nat>, created: multiset<int>, closed: multiset<int>)

  /** What socket() and pthread_create() answer while a packet is handled. */
  datatype Answers = Answers(socket: int, starts: bool, thread: nat)

  datatype Event =
    | Packet(identifier: nat, active: bool, answers: Answers)
    | Exit(thread: nat)

  /** The slot an identifier hashes to: its remainder, as at lines 121-124. */
  function SlotIndex(identifier: nat): (i: nat)
    ensures i < MAX_CLIENT_THREADS
  {
    identifier % MAX_CLIENT_THREADS
  }

  predicate Known(slot: Slot, identifier: nat) {
    slot.socket != NO_SOCKET && slot.identifier == identifier
  }

  /** A new socket's number is not in use, and a new thread is not one that runs. */
  predicate Possible(s: State, e: Event) {
    match e
    case Packet(_, _, a) => a.socket == NO_SOCKET || (a.socket >= 0 && a.socket !in s.owner && a.thread !in s.threads)
    case Exit(t) => t in s.threads
  }

  function Next(s: State, e: Event): State
    requires |s.slots| == MAX_CLIENT_THREADS && Possible(s, e)
  {
    match e
    case Packet(identifier, active, a) =>
      var i := SlotIndex(identifier);
      var slot := s.slots[i];
      if Known(slot, identifier) || a.socket == NO_SOCKET then s
      else
        var generation := (slot.generation + 1) % GENERATIONS;
        if a.starts then
          s.(slots := s.slots[i := Slot(a.socket, identifier, generation)],
             numClients := s.numClients + (if active then 1 else 0),
             threads := s.threads[a.thread := Client(i, a.socket, generation, active, identifier)],
             owner := s.owner[a.socket := a.thread],
             created := s.created + multiset{a.socket})
        else
          s.(slots := s.slots[i := Slot(NO_SOCKET, identifier, generation)],
             created := s.created + multiset{a.socket}, closed := s.closed + multiset{a.socket})
    case Exit(t) =>
      var c := s.threads[t];
      var slot := if c.index < |s.slots| then s.slots[c.index] else Slot(NO_SOCKET, 0, 0);
      s.(slots := if c.index < |s.slots| && slot.generation == c.generation && slot.socket == c.socket
                  then s.slots[c.index := Slot(NO_SOCKET, 0, slot.generation)] else s.slots,
         numClients := s.numClients - (if c.active then 1 else 0),
         threads := s.threads - {t}, owner := s.owner - {c.socket}, closed := s.closed + multiset{c.socket})
  }

  // ---- what always holds ----------------------------------------------------------

  /** The slot's socket is open, and its thread is the one the slot was filled for. */
  ghost predicate SlotOwned(s: State, i: nat)
    requires i < |s.slots|
  {
    var slot := s.slots[i];
    slot.socket != NO_SOCKET ==>
      && slot.socket in s.owner && s.owner[slot.socket] in s.threads
      && var c := s.threads[s.owner[slot.socket]];
      c.index == i && c.socket == slot.socket && c.generation == slot.generation && c.identifier == slot.identifier
  }

  ghost predicate SlotsOwned(s: State) {
    forall i {:trigger SlotOwned(s, i)} :: 0 <= i < |s.slots| ==> SlotOwned(s, i)
  }

  ghost predicate HoldsSocket(s: State, t: nat)
    requires t in s.threads
  {
    var c := s.threads[t];
    c.index < MAX_CLIENT_THREADS && c.socket >= 0 && c.socket in s.owner && s.owner[c.socket] == t
  }

  /** Every live thread has an open socket of its own, and every open socket a live thread. */
  ghost predicate SocketsHeld(s: State) {
    && (forall t {:trigger HoldsSocket(s, t)} | t in s.threads :: HoldsSocket(s, t))
    && (forall k {:trigger s.owner[k]} | k in s.owner :: s.owner[k] in s.threads && s.threads[s.owner[k]].socket == k)
  }

  ghost function ActiveThreads(threads: map<nat, Client>): set<nat> {
    set t | t in threads && threads[t].active
  }

  /** Every socket that was created is either open now or was closed, once. */
  ghost predicate ClosedOnce(s: State) {
    s.created == s.closed + multiset(s.owner.Keys)
  }

  ghost predicate Invariant(s: State) {
    && |s.slots| == MAX_CLIENT_THREADS
    && SlotsOwned(s)
    && SocketsHeld(s)
    && s.numClients == |ActiveThreads(s.threads)|
    && ClosedOnce(s)
  }

  function Start(): State {
    State(seq(MAX_CLIENT_THREADS, i => Slot(NO_SOCKET, 0, 0)), 0, map[], map[], multiset{}, multiset{})
  }

  lemma StartHolds()
    ensures Invariant(Start())
  {
    assert ActiveThreads(map[]) == {};
    assert Start().owner.Keys == {};
  }

  lemma AdmitKeepsSlots(s: State, e: Event)
    requires Invariant(s) && e.Packet? && Possible(s, e)
    requires !Known(s.slots[SlotIndex(e.identifier)], e.identifier) && e.answers.socket != NO_SOCKET && e.answers.starts
    ensures |Next(s, e).slots| == MAX_CLIENT_THREADS && SlotsOwned(Next(s, e))
  {
    var t := Next(s, e);
    forall i {:trigger SlotOwned(t, i)} | 0 <= i < |t.slots| ensures SlotOwned(t, i) {
      assert SlotOwned(s, i);
    }
  }

  lemma AdmitKeepsSockets(s: State, e: Event)
    requires SocketsHeld(s) && |s.slots| == MAX_CLIENT_THREADS && e.Packet? && Possible(s, e)
    requires !Known(s.slots[SlotIndex(e.identifier)], e.identifier) && e.answers.socket != NO_SOCKET && e.answers.starts
    ensures SocketsHeld(Next(s, e))
  {
    var t := Next(s, e);
    forall k {:trigger HoldsSocket(t, k)} | k in t.threads ensures HoldsSocket(t, k) {
      assert k != e.answers.thread ==> HoldsSocket(s, k);
    }
  }

  /** A client that is not in its slot gets a socket and a thread; whoever had the slot keeps its own. */
  lemma AdmitKeeps(s: State, e: Event)
    requires Invariant(s) && e.Packet? && Possible(s, e)
    requires !Known(s.slots[SlotIndex(e.identifier)], e.identifier) && e.answers.socket != NO_SOCKET && e.answers.starts
    ensures Invariant(Next(s, e))
  {
    AdmitKeepsSlots(s, e);
    AdmitKeepsSockets(s, e);
    hide SlotsOwned;
    hide SocketsHeld;
    hide ActiveThreads;
    var t, a := Next(s, e), e.answers;
    OneMoreThread(s.threads, a.thread, t.threads[a.thread]);
    OneMoreSocket(s.owner, a.socket, a.thread);
  }

  lemma OneMoreThread(threads: map<nat, Client>, thread: nat, c: Client)
    requires thread !in threads
    ensures |ActiveThreads(threads[thread := c])| == |ActiveThreads(threads)| + if c.active then 1 else 0
  {
    assert ActiveThreads(threads[thread := c]) == if c.active then ActiveThreads(threads) + {thread}
        else ActiveThreads(threads);
  }

  lemma OneMoreSocket(owner: map<int, nat>, socket: int, thread: nat)
    requires socket !in owner
    ensures multiset(owner[socket := thread].Keys) == multiset(owner.Keys) + multiset{socket}
  {
    assert owner[socket := thread].Keys == owner.Keys + {socket};
  }

  lemma FailedStartKeeps(s: State, e: Event)
    requires Invariant(s) && e.Packet? && Possible(s, e) && !e.answers.starts
    ensures Invariant(Next(s, e))
  {
    var t := Next(s, e);
    forall i {:trigger SlotOwned(t, i)} | 0 <= i < |t.slots| ensures SlotOwned(t, i) {
      assert SlotOwned(s, i);
    }
    forall k {:trigger HoldsSocket(t, k)} | k in t.threads ensures HoldsSocket(t, k) {
      assert HoldsSocket(s, k);
    }
  }

  lemma ExitKeeps(s: State, thread: nat)
    requires Invariant(s) && thread in s.threads
    ensures Invariant(Next(s, Exit(thread)))
  {
    var t := Next(s, Exit(thread));
    var c := s.threads[thread];
    assert HoldsSocket(s, thread);
    forall i {:trigger SlotOwned(t, i)} | 0 <= i < |t.slots| ensures SlotOwned(t, i) {
      assert SlotOwned(s, i);
    }
    forall k {:trigger HoldsSocket(t, k)} | k in t.threads ensures HoldsSocket(t, k) {
      assert HoldsSocket(s, k);
    }
    assert ActiveThreads(t.threads) == ActiveThreads(s.threads) - {thread};
    assert s.owner.Keys == t.owner.Keys + {c.socket};
  }

  lemma EventKeeps(s: State, e: Event)
    requires Invariant(s) && Possible(s, e)
    ensures Invariant(Next(s, e))
  {
    match e
    case Packet(identifier, active, a) =>
      if !a.starts {
        FailedStartKeeps(s, e);
      } else if !Known(s.slots[SlotIndex(identifier)], identifier) && a.socket != NO_SOCKET {
        AdmitKeeps(s, e);
      }
    case Exit(t) => ExitKeeps(s, t);
  }

  // ---- whole runs -------------------------------------------------------------------

  ghost predicate IsRun(states: seq<State>, events: seq<Event>) {
    && |states| == |events| + 1 && states[0] == Start()
    && forall i :: 0 <= i < |events| ==>
      |states[i].slots| == MAX_CLIENT_THREADS && Possible(states[i], events[i])
          && states[i + 1] == Next(states[i], events[i])
  }

  lemma {:induction false} RunKeeps(states: seq<State>, events: seq<Event>, i: nat)
    requires IsRun(states, events) && i < |states|
    ensures Invariant(states[i])
  {
    hide Invariant;
    hide Next;
    if i == 0 {
      StartHolds();
    } else {
      RunKeeps(states, events, i - 1);
      EventKeeps(states[i - 1], events[i - 1]);
    }
  }

  /**
   The end of a thread leaves the slot of another thread alone, even if the generations have
   wrapped to the same number.
   */
  lemma LateExitSparesOthers(states: seq<State>, events: seq<Event>, i: nat, thread: nat, slot: nat)
    requires IsRun(states, events) && i < |events| && events[i] == Exit(thread)
    requires slot < MAX_CLIENT_THREADS && |states[i].slots| == MAX_CLIENT_THREADS
    requires var k := states[i].slots[slot].socket;
             k in states[i].owner && states[i].owner[k] != thread
    ensures |states[i + 1].slots| == MAX_CLIENT_THREADS && states[i + 1].slots[slot] == states[i].slots[slot]
    ensures SlotOwned(states[i + 1], slot)
  {
    RunKeeps(states, events, i);
    RunKeeps(states, events, i + 1);
    assert HoldsSocket(states[i], thread);
    assert SlotOwned(states[i + 1], slot);
  }

  /** A thread that still has its slot always clears it when it ends. */
  lemma OwnExitClears(states: seq<State>, events: seq<Event>, i: nat, thread: nat)
    requires IsRun(states, events) && i < |events| && events[i] == Exit(thread)
    ensures var c := states[i].threads[thread];
            && c.index < |states[i].slots| == |states[i + 1].slots|
            && (states[i].slots[c.index].socket == c.socket ==> states[i + 1].slots[c.index].socket == NO_SOCKET)
  {
    RunKeeps(states, events, i);
    assert HoldsSocket(states[i], thread);
    assert SlotOwned(states[i], states[i].threads[thread].index);
  }

  /** Thread t of this client runs, and its client's slot still names its socket. */
  ghost predicate Serves(s: State, t: nat, identifier: nat)
    requires |s.slots| == MAX_CLIENT_THREADS
  {
    && t in s.threads && s.threads[t].identifier == identifier
    && s.slots[SlotIndex(identifier)].socket == s.threads[t].socket
  }

  /** A packet of a client with such a thread changes nothing: it goes out on that thread's socket. */
  lemma ServedClientStays(states: seq<State>, events: seq<Event>, i: nat, t: nat)
    requires IsRun(states, events) && i < |events| && events[i].Packet?
    requires Serves(states[i], t, events[i].identifier)
    ensures states[i + 1] == states[i] && Known(states[i].slots[SlotIndex(events[i].identifier)], events[i].identifier)
  {
    RunKeeps(states, events, i);
    ServedIsKnown(states[i], t, events[i].identifier);
  }

  lemma ServedIsKnown(s: State, t: nat, identifier: nat)
    requires Invariant(s) && Serves(s, t, identifier)
    ensures Known(s.slots[SlotIndex(identifier)], identifier)
  {
    assert SlotOwned(s, SlotIndex(identifier));
    assert HoldsSocket(s, t);
  }

  lemma ServedGoesOut(s: State, identifier: nat)
    requires Invariant(s)
    ensures var slot := s.slots[SlotIndex(identifier)];
            forall t :: Serves(s, t, identifier) ==>
              Known(slot, identifier) && t in s.threads && slot.socket == s.threads[t].socket
  {
    forall t | Serves(s, t, identifier) ensures Known(s.slots[SlotIndex(identifier)], identifier) {
      ServedIsKnown(s, t, identifier);
    }
  }

  /** Any other packet asks for a socket; with one, and a thread, the client is served from then on. */
  lemma OtherClientIsServed(states: seq<State>, events: seq<Event>, i: nat)
    requires IsRun(states, events) && i < |events| && events[i].Packet?
    requires forall t :: !Serves(states[i], t, events[i].identifier)
    ensures var s, r, e := states[i], states[i + 1], events[i];
            && (e.answers.socket == NO_SOCKET ==> r == s)
            && (e.answers.socket != NO_SOCKET && e.answers.starts ==>
                && Serves(r, e.answers.thread, e.identifier) && r.threads[e.answers.thread].socket == e.answers.socket
                && r.numClients == s.numClients + if e.active then 1 else 0)
            && (e.answers.socket != NO_SOCKET && !e.answers.starts ==> r.threads == s.threads && r.owner == s.owner)
  {
    RunKeeps(states, events, i);
    var s, e := states[i], events[i];
    KnownIsServed(s, e.identifier);
  }

  lemma KnownIsServed(s: State, identifier: nat)
    requires Invariant(s)
    ensures Known(s.slots[SlotIndex(identifier)], identifier) ==> exists t :: Serves(s, t, identifier)
  {
    assert SlotOwned(s, SlotIndex(identifier));
    var slot := s.slots[SlotIndex(identifier)];
    if Known(slot, identifier) {
      assert Serves(s, s.owner[slot.socket], identifier);
    }
  }

  function OwnerOf(owner: map<int, nat>, socket: int): nat {
    if socket in owner then owner[socket] else 0
  }

  lemma OwnerRuns(s: State, socket: int)
    requires SocketsHeld(s)
    ensures socket in s.owner ==> OwnerOf(s.owner, socket) in s.threads.Keys
  {
  }

  /** Once no thread is left every socket has been closed, no slot names one and no client is counted. */
  lemma AllReturned(states: seq<State>, events: seq<Event>, i: nat)
    requires IsRun(states, events) && i < |states| && states[i].threads.Keys == {}
    ensures states[i].created == states[i].closed && states[i].numClients == 0
    ensures forall k :: 0 <= k < |states[i].slots| ==> states[i].slots[k].socket == NO_SOCKET
  {
    var s := states[i];
    RunKeeps(states, events, i);
    assert ActiveThreads(s.threads) == {};
    forall k ensures k !in s.owner {
      OwnerRuns(s, k);
    }
    assert s.owner.Keys == {};
    forall k | 0 <= k < |s.slots| ensures s.slots[k].socket == NO_SOCKET {
      assert SlotOwned(s, k);
    }
  }

  /** A packet goes out on a socket of its own client's thread. */
  lemma ForwardsToClient(s: State, e: Event)
    requires Invariant(s) && e.Packet? && Possible(s, e)
    ensures var slot, t := s.slots[SlotIndex(e.identifier)], Next(s, e);
            var socket := if Known(slot, e.identifier) then slot.socket else e.answers.socket;
            socket != NO_SOCKET && (Known(slot, e.identifier) || e.answers.starts) ==>
              socket in t.owner && t.owner[socket] in t.threads && t.threads[t.owner[socket]].identifier == e.identifier
  {
    assert SlotOwned(s, SlotIndex(e.identifier));
  }

  lemma ThreadHasSlot(s: State, thread: nat)
    requires Invariant(s) && thread in s.threads
    ensures s.threads[thread].index < |s.slots|
  {
    assert HoldsSocket(s, thread);
  }

  // ---- the two sections -----------------------------------------------------------------

  /** A proxy's table, with the threads and sockets around it. */
  class Proxy {
    const slots: array<Slot>
    var numClients: int
    ghost var threads: map<nat, Client>
    ghost var owner: map<int, nat>
    ghost var created: multiset<int>
    ghost var closed: multiset<int>

    ghost function View(): State
      reads this, slots
    {
      State(slots[..], numClients, threads, owner, created, closed)
    }

    constructor ()
      ensures fresh(slots) && View() == Start()
    {
      slots := new Slot[MAX_CLIENT_THREADS](i => Slot(NO_SOCKET, 0, 0));
      numClients, threads, owner, created, closed := 0, map[], map[], multiset{}, multiset{};
    }

    /** A packet of a client: the socket it is forwarded on, which belongs to a thread of that client. */
    method HandlePacket(identifier: nat, active: bool, a: Answers) returns (forwardOn: int)
      requires slots.Length == MAX_CLIENT_THREADS && Invariant(View())
          && Possible(View(), Packet(identifier, active, a))
      modifies this, slots
      ensures Invariant(View()) && View() == Next(old(View()), Packet(identifier, active, a))
      ensures var slot := old(slots[SlotIndex(identifier)]);
              forwardOn == if Known(slot, identifier) then slot.socket else a.socket
      ensures forwardOn != NO_SOCKET && (Known(old(slots[SlotIndex(identifier)]), identifier) || a.starts) ==>
              forwardOn in owner && owner[forwardOn] in threads && threads[owner[forwardOn]].identifier == identifier
      ensures forall t :: Serves(old(View()), t, identifier) ==>
              View() == old(View()) && forwardOn == threads[t].socket
    {
      hide Invariant;
      hide SlotOwned;
      ghost var was, e := View(), Packet(identifier, active, a);
      EventKeeps(was, e);
      ForwardsToClient(was, e);
      ServedGoesOut(was, identifier);
      hide Serves;
      var i := SlotIndex(identifier);
      var slotMatches := slots[i].socket != NO_SOCKET && slots[i].identifier == identifier;
      if slotMatches {
        return slots[i].socket;
      }
      forwardOn := a.socket;
      if a.socket == NO_SOCKET {
        return;
      }
      created := created + multiset{a.socket};
      var generation := FillSlot(i, identifier, a.socket);
      if active {
        numClients := numClients + 1;
      }
      if a.starts {
        threads := threads[a.thread := Client(i, a.socket, generation, active, identifier)];
        owner := owner[a.socket := a.thread];
      } else {
        closed := closed + multiset{a.socket};
        slots[i] := slots[i].(socket := NO_SOCKET);
        if active {
          numClients := numClients - 1;
        }
      }
      assert slots[..] == Next(was, e).slots;
    }

    method FillSlot(i: nat, identifier: nat, socket: int) returns (generation: nat)
      requires i < slots.Length
      modifies slots
      ensures generation == (old(slots[i]).generation + 1) % GENERATIONS
      ensures slots[..] == old(slots[..])[i := Slot(socket, identifier, generation)]
    {
      slots[i] := slots[i].(generation := (slots[i].generation + 1) % GENERATIONS);
      slots[i] := slots[i].(identifier := identifier);
      slots[i] := slots[i].(socket := socket);
      generation := slots[i].generation;
    }

    /** The end of a client thread. */
    method HandleExit(thread: nat, args: Client)
      requires slots.Length == MAX_CLIENT_THREADS && Invariant(View()) && thread in threads && threads[thread] == args
      modifies this, slots
      ensures Invariant(View()) && View() == Next(old(View()), Exit(thread))
    {
      hide Invariant;
      ghost var was := View();
      EventKeeps(was, Exit(thread));
      ThreadHasSlot(was, thread);
      closed := closed + multiset{args.socket};
      owner := owner - {args.socket};
      threads := threads - {thread};
      if slots[args.index].generation == args.generation && slots[args.index].socket == args.socket {
        slots[args.index] := slots[args.index].(socket := NO_SOCKET);
        slots[args.index] := slots[args.index].(identifier := 0);
      }
      if args.active {
        numClients := numClients - 1;
      }
      assert slots[..] == Next(was, Exit(thread)).slots;
    }
  }
}
