/**
  The slots of a context and its shutdown (zmq::ctx_t, ExternalLib/libzmq/src/ctx.cpp).  Every
  thread and socket has a slot of its own; the reaper thread is told to stop when the context is
  terminating and the last socket has gone.

  The methods run under the slot lock, so a run is a sequence of them.

  An inproc connection to an address nobody has bound yet is kept pending.  The connecting socket
  then waits for one command more than it has had (own_t's sequence numbers), and so cannot go
  before the address is bound.
 */
module Ctx {
  import opened Runs

  // socket_base_t: `tid` is its slot, `arrayIndex` its place among the sockets.
  class Socket {
    const tid: nat
    var arrayIndex: nat
    // How often it was told to stop.
    var stops: nat
    // own_t::_sent_seqnum and _processed_seqnum, and the inproc_connected commands on their way.
    var sent: nat
    var processed: nat
    var inFlight: nat

    constructor (tid: nat, arrayIndex: nat)
      ensures this.tid == tid && this.arrayIndex == arrayIndex && stops == 0
      ensures sent == 0 && processed == 0 && inFlight == 0
    {
      this.tid, this.arrayIndex, this.stops := tid, arrayIndex, 0;
      this.sent, this.processed, this.inFlight := 0, 0, 0;
    }
  }

  // A pending inproc connection of a socket to an address.
  datatype Connection = Connection(address: nat, socket: Socket)

  // How many of the connections are the socket's.
  ghost function Waits(cs: seq<Connection>, s: Socket): nat {
    if cs == [] then 0 else (if cs[0].socket == s then 1 else 0) + Waits(cs[1..], s)
  }

  lemma {:induction false} WaitsPush(cs: seq<Connection>, c: Connection, s: Socket)
    ensures Waits(cs + [c], s) == Waits(cs, s) + if c.socket == s then 1 else 0
  {
    if cs != [] {
      assert (cs + [c])[1..] == cs[1..] + [c];
      WaitsPush(cs[1..], c, s);
    } else {
      assert [c][1..] == [];
    }
  }

  lemma {:induction false} NotWaiting(cs: seq<Connection>, s: Socket)
    ensures Waits(cs, s) == 0 <==> forall i :: 0 <= i < |cs| ==> cs[i].socket != s
  {
    if cs != [] {
      NotWaiting(cs[1..], s);
      assert forall i :: 1 <= i < |cs| ==> cs[i] == cs[1..][i - 1];
    }
  }

  // The connections to other addresses.
  function Elsewhere(cs: seq<Connection>, address: nat): seq<Connection> {
    if cs == [] then []
    else
      var c := cs[|cs| - 1];
      Elsewhere(cs[..|cs| - 1], address) + if c.address == address then [] else [c]
  }

  lemma {:induction false} ElsewhereIn(cs: seq<Connection>, address: nat, c: Connection)
    ensures c in Elsewhere(cs, address) <==> c in cs && c.address != address
  {
    if cs != [] {
      ElsewhereIn(cs[..|cs| - 1], address, c);
      assert cs == cs[..|cs| - 1] + [cs[|cs| - 1]];
    }
  }

  lemma HasOne(cs: seq<Connection>)
    requires cs != []
    ensures exists c :: c in cs
  {
    assert cs[0] in cs;
  }

  lemma {:induction false} WaitsSome(cs: seq<Connection>, i: nat)
    requires i < |cs|
    ensures Waits(cs, cs[i].socket) > 0
  {
    if i > 0 {
      WaitsSome(cs[1..], i - 1);
    }
  }

  // Whose mailbox is in a slot.
  datatype Mailbox = Null | Term | Reaper | Io | Of(socket: Socket)

  const TERM_TID := 0
  const REAPER_TID := 1

  // `threads` and `made` are up to the system: how many threads a start could make, and whether
  // the socket could be made.
  datatype Event =
    | Creates(threads: nat, made: bool)
    | Connects(i: nat, address: nat)
    | Binds(address: nat)
    | Processes(i: nat)
    | Destroys(i: nat)
    | ShutsDown
    | Terminates(threads: nat, made: bool)

  // What a context is to its sockets.  `flight` are the commands on their way to each, `stops` and
  // `told` count how often each, and the reaper, was told to stop.
  datatype State = State(
    maxSockets: nat, ioThreads: nat, starting: bool, terminating: bool, empty: seq<nat>,
    sockets: seq<Socket>, pending: seq<Connection>, flight: map<Socket, nat>, stops: map<Socket, nat>, told: nat)
  {
    // How many sockets there is room for.
    function Room(): nat {
      if starting then maxSockets else |empty|
    }

    predicate Gone() {
      !starting && sockets == []
    }
  }

  // The last socket takes the place of the one at `i`.
  function Erased(ss: seq<Socket>, i: nat): seq<Socket> {
    if i < |ss| then ss[i := ss[|ss| - 1]][..|ss| - 1] else ss
  }

  ghost predicate Steps(s: State, e: Event, t: State) {
    match e
    case Creates(threads, made) =>
      if CanCreate(s, threads, made) then Created(s, t)
      else t == s.(starting := t.starting, empty := t.empty) && t.Room() == s.Room()
    case Connects(i, address) =>
      t == if i < |s.sockets| then s.(pending := s.pending + [Connection(address, s.sockets[i])]) else s
    case Binds(address) => Sent(s, t) && t == s.(pending := Elsewhere(s.pending, address), flight := t.flight)
    case Processes(i) =>
      t == if i < |s.sockets| && s.sockets[i] in s.flight && s.flight[s.sockets[i]] > 0
           then s.(flight := s.flight[s.sockets[i] := s.flight[s.sockets[i]] - 1]) else s
    case Destroys(i) => t == if Idle(s, i) then Destroyed(s, i) else s
    case ShutsDown => t == if s.terminating then s else Stopped(s)
    case Terminates(_, made) => Bindable(s, made) && Drained(s, t)
  }

  predicate CanCreate(s: State, threads: nat, made: bool) {
    !s.terminating && (s.starting ==> threads > s.ioThreads) && s.Room() > 0 && made
  }

  // A new socket is the last one, and has the last empty slot.
  ghost predicate Created(s: State, t: State) {
    && |t.sockets| > 0
    && var x := t.sockets[|t.sockets| - 1];
       && x !in s.sockets && t.Room() == s.Room() - 1 && (!s.starting ==> s.empty == t.empty + [x.tid])
       && t == s.(starting := false, empty := t.empty, sockets := s.sockets + [x],
                  flight := s.flight[x := 0], stops := s.stops[x := 0])
  }

  // Each connection that is no longer pending is a command on its way.
  ghost predicate Sent(s: State, t: State) {
    forall x :: x in s.flight ==>
      x in t.flight && t.flight[x] + Waits(t.pending, x) == s.flight[x] + Waits(s.pending, x)
  }

  // The socket has had all its commands.
  ghost predicate Idle(s: State, i: nat) {
    && i < |s.sockets| && s.sockets[i] in s.flight && s.flight[s.sockets[i]] == 0 && Waits(s.pending, s.sockets[i]) == 0
  }

  ghost function Destroyed(s: State, i: nat): State
    requires i < |s.sockets|
  {
    var x, t := s.sockets[i], s.(sockets := Erased(s.sockets, i));
    t.(empty := s.empty + [x.tid], flight := s.flight - {x}, stops := s.stops - {x},
       told := s.told + if s.terminating && t.Gone() then 1 else 0)
  }

  // Terminating; the sockets, or without any the reaper, are told to stop.
  ghost function Stopped(s: State): State {
    s.(terminating := true, stops := map x | x in s.stops :: s.stops[x] + 1, told := s.told + if s.Gone() then 1 else 0)
  }

  // There is room for a socket for each pending connection.
  predicate Bindable(s: State, made: bool) {
    s.pending == [] || (made && s.Room() >= |s.pending|)
  }

  // All pending connections are bound, by a socket each, and what there was is told to stop unless
  // it was before.
  ghost predicate Drained(s: State, t: State) {
    && t.maxSockets == s.maxSockets && t.ioThreads == s.ioThreads && t.starting == s.starting
    && t.terminating == (s.terminating || !s.starting) && t.pending == [] && Sent(s, t)
    && s.sockets <= t.sockets && |t.sockets| == |s.sockets| + |s.pending| && t.Room() == s.Room() - |s.pending|
    && forall x :: x in s.stops ==>
         x in t.stops && t.stops[x] == s.stops[x] + if s.starting || s.terminating then 0 else 1
  }

  // No two sockets share a slot, none is in an empty one, and the reaper was told to stop exactly
  // when its time has come, and once.
  ghost predicate InOrder(s: State) {
    && (forall i, j :: 0 <= i < j < |s.sockets| ==> s.sockets[i].tid != s.sockets[j].tid)
    && (forall i :: 0 <= i < |s.sockets| ==> s.sockets[i].tid !in s.empty)
    && s.told == if s.terminating && s.Gone() then 1 else 0
  }

  class Ctx {
    const maxSockets: nat
    const ioThreads: nat
    var starting: bool
    var terminating: bool
    var slots: seq<Mailbox>
    var emptySlots: seq<nat>
    var sockets: seq<Socket>
    var pending: seq<Connection>
    // The length of _io_threads.
    var ioList: nat
    ghost var Repr: set<Socket>
    // How often the reaper was told to stop.
    ghost var reaperStops: nat

    // The slots for sockets: those behind the fixed ones.
    ghost predicate InRange(t: int)
      reads this`slots
    {
      2 + ioThreads <= t < |slots|
    }

    ghost predicate Fixed()
      reads this`slots
    {
      && |slots| == 2 + ioThreads + maxSockets && slots[TERM_TID] == Term && slots[REAPER_TID] == Reaper
      && forall t :: 2 <= t < 2 + ioThreads ==> slots[t] == Io
    }

    ghost predicate Listed()
      reads this`sockets, this`Repr, Repr`arrayIndex
    {
      && (forall i :: 0 <= i < |sockets| ==> sockets[i] in Repr && sockets[i].arrayIndex == i)
      && (forall s :: s in Repr ==> s.arrayIndex < |sockets| && sockets[s.arrayIndex] == s)
    }

    // Empty slots and sockets' slots are disjoint and together are the range.
    ghost predicate Covered()
      reads this`slots, this`emptySlots, this`Repr
    {
      && (forall s :: s in Repr ==> InRange(s.tid) && slots[s.tid] == Of(s))
      && (forall t :: InRange(t) ==> if slots[t].Of? then slots[t].socket in Repr && slots[t].socket.tid == t
                                     else slots[t] == Null && t in emptySlots)
      && (forall i :: 0 <= i < |emptySlots| ==> InRange(emptySlots[i]) && slots[emptySlots[i]] == Null)
      && (forall i, j :: 0 <= i < j < |emptySlots| ==> emptySlots[i] != emptySlots[j])
    }

    // A socket lacks one command for each pending connection of its own and for each on its way.
    ghost predicate Counted()
      reads this`pending, this`Repr, Repr`sent, Repr`processed, Repr`inFlight
    {
      && (forall i :: 0 <= i < |pending| ==> pending[i].socket in Repr)
      && (forall s :: s in Repr ==> s.sent == s.processed + s.inFlight + Waits(pending, s))
    }

    ghost predicate Owed(kept: seq<Connection>, rest: seq<Connection>)
      reads this`Repr, Repr`sent, Repr`processed, Repr`inFlight
    {
      forall s :: s in Repr ==> s.sent == s.processed + s.inFlight + Waits(kept, s) + Waits(rest, s)
    }

    ghost predicate Valid()
      reads this, Repr
    {
      && Listed() && Counted()
      && if starting then slots == [] && emptySlots == [] && sockets == [] else Fixed() && Covered()
    }

    // The reaper has been told to stop exactly when its time has come, and once.
    ghost predicate Once()
      reads this`starting, this`terminating, this`sockets, this`reaperStops
    {
      reaperStops == if !starting && terminating && sockets == [] then 1 else 0
    }

    constructor (maxSockets: nat, ioThreads: nat)
      ensures Valid() && Once() && starting && !terminating && Repr == {}
      ensures this.maxSockets == maxSockets && this.ioThreads == ioThreads && ioList == 0
    {
      this.maxSockets, this.ioThreads := maxSockets, ioThreads;
      starting, terminating, slots, emptySlots, sockets, pending, ioList := true, false, [], [], [], [], 0;
      Repr, reaperStops := {}, 0;
    }

    // How many sockets there is room for.
    ghost function Room(): nat
      reads this`starting, this`emptySlots
    {
      if starting then maxSockets else |emptySlots|
    }

    // False: a thread could not be made.  Then no slot is taken, but the I/O threads made so far
    // stay in the list, and the next start adds to them.
    method Start(threads: nat) returns (ok: bool)
      requires Valid() && starting
      modifies this`starting, this`slots, this`emptySlots, this`ioList
      ensures Valid() && starting == !ok && (ok <==> threads > ioThreads) && Room() == old(Room())
      ensures ok ==> forall i :: 0 <= i < |emptySlots| ==> emptySlots[i] == |slots| - 1 - i
      ensures ioList == old(ioList) + if ok then ioThreads else if threads > 0 then threads - 1 else 0
    {
      slots := [Term, Null];
      if threads == 0 {
        slots := [];
        return false;
      }
      slots := slots[REAPER_TID := Reaper];
      slots := slots + seq(ioThreads + maxSockets, _ => Null);
      for i := 2 to 2 + ioThreads
        invariant starting && emptySlots == [] && i - 2 < threads && ioList == old(ioList) + i - 2
        invariant |slots| == 2 + ioThreads + maxSockets && slots[TERM_TID] == Term && slots[REAPER_TID] == Reaper
        invariant forall t :: 2 <= t < |slots| ==> slots[t] == if t < i then Io else Null
      {
        if i - 1 == threads {
          slots := [];
          return false;
        }
        ioList := ioList + 1;
        slots := slots[i := Io];
      }
      FillEmptySlots();
      starting := false;
      ok := true;
    }

    // All slots behind the fixed ones, the first on top.
    method FillEmptySlots()
      requires |slots| == 2 + ioThreads + maxSockets && emptySlots == []
      modifies this`emptySlots
      ensures |emptySlots| == maxSockets && forall i :: 0 <= i < |emptySlots| ==> emptySlots[i] == |slots| - 1 - i
      ensures forall t :: InRange(t) ==> t in emptySlots
    {
      var i := |slots| - 1;
      while i >= ioThreads + 2
        invariant ioThreads + 1 <= i < |slots|
        invariant |emptySlots| == |slots| - 1 - i
        invariant forall k :: 0 <= k < |emptySlots| ==> emptySlots[k] == |slots| - 1 - k
      {
        emptySlots := emptySlots + [i];
        i := i - 1;
      }
      forall t | InRange(t) ensures t in emptySlots {
        assert emptySlots[|slots| - 1 - t] == t;
      }
    }

    // A socket gets a slot nobody has, exactly if the context is not terminating, the threads and
    // the socket can be made, and there is a slot left.
    method CreateSocket(threads: nat, made: bool) returns (s: Socket?)
      requires Valid()
      modifies this`starting, this`slots, this`emptySlots, this`sockets, this`Repr, this`ioList
      ensures Valid()
      ensures s != null <==> !terminating && (old(starting) ==> threads > ioThreads) && old(Room()) > 0 && made
      ensures if s == null then sockets == old(sockets) && Repr == old(Repr) && Room() == old(Room())
              else && fresh(s) && sockets == old(sockets) + [s] && Repr == old(Repr) + {s}
                   && s.stops == 0 && s.inFlight == 0
                   && !starting && Room() == old(Room()) - 1
                   && if old(starting) then s.tid == 2 + ioThreads
                      else old(emptySlots) == emptySlots + [s.tid]
      ensures !old(starting) || terminating ==> starting == old(starting)
    {
      if terminating {
        return null;
      }
      if starting {
        var ok := Start(threads);
        if !ok {
          return null;
        }
      }
      if emptySlots == [] {
        return null;
      }
      var slot := emptySlots[|emptySlots| - 1];
      if !made {
        return null;
      }
      var t := new Socket(slot, |sockets|);
      Register(t);
      s := t;
    }

    method Register(s: Socket)
      requires Valid() && !starting && emptySlots != [] && s !in Repr
      requires 0 <= s.tid < |slots| && s.tid == emptySlots[|emptySlots| - 1] && s.arrayIndex == |sockets|
      requires s.sent == s.processed + s.inFlight
      modifies this`slots, this`emptySlots, this`sockets, this`Repr
      ensures Valid() && sockets == old(sockets) + [s] && Repr == old(Repr) + {s}
      ensures old(emptySlots) == emptySlots + [s.tid]
    {
      hide Listed, Counted, Covered, Fixed;
      emptySlots := emptySlots[..|emptySlots| - 1];
      sockets := sockets + [s];
      slots := slots[s.tid := Of(s)];
      Repr := Repr + {s};
      RegisteredListed(s);
      RegisteredCounted(s);
      RegisteredCovered(s);
    }

    twostate lemma RegisteredListed(s: Socket)
      requires old(Listed()) && Repr == old(Repr) + {s} && s !in old(Repr) && sockets == old(sockets) + [s]
      requires s.arrayIndex == |old(sockets)| && forall t :: t in old(Repr) ==> t.arrayIndex == old(t.arrayIndex)
      ensures Listed()
    {
    }

    twostate lemma RegisteredCounted(s: Socket)
      requires old(Counted()) && Repr == old(Repr) + {s} && s !in old(Repr) && pending == old(pending)
      requires s.sent == s.processed + s.inFlight
      requires forall t :: t in old(Repr) ==>
                 t.sent == old(t.sent) && t.processed == old(t.processed) && t.inFlight == old(t.inFlight)
      ensures Counted()
    {
      hide Waits;
      NotWaiting(pending, s);
    }

    twostate lemma RegisteredCovered(s: Socket)
      requires old(Fixed() && Covered()) && Repr == old(Repr) + {s} && s !in old(Repr)
      requires old(emptySlots) != [] && s.tid == old(emptySlots)[|old(emptySlots)| - 1]
      requires emptySlots == old(emptySlots)[..|old(emptySlots)| - 1] && slots == old(slots)[s.tid := Of(s)]
      ensures Fixed() && Covered()
    {
      forall t | InRange(t) && t != s.tid && t in old(emptySlots) ensures t in emptySlots {
        var i :| 0 <= i < |old(emptySlots)| && old(emptySlots)[i] == t;
        assert emptySlots[i] == t;
      }
    }

    // A socket goes only when it has had all its commands.  Its slot is free again; the last one
    // to go while terminating stops the reaper.
    method DestroySocket(s: Socket)
      requires Valid() && s in Repr && s.processed == s.sent
      modifies this`slots, this`emptySlots, this`sockets, this`Repr, this`reaperStops, Repr`arrayIndex
      ensures Valid() && Repr == old(Repr) - {s} && |sockets| == |old(sockets)| - 1 && Room() == old(Room()) + 1
      ensures InRange(s.tid) && slots[s.tid] == Null && emptySlots == old(emptySlots) + [s.tid]
      ensures sockets == Erased(old(sockets), old(s.arrayIndex))
      ensures reaperStops == old(reaperStops) + if terminating && sockets == [] then 1 else 0
    {
      Unregister(s);
      if terminating && sockets == [] {
        reaperStops := reaperStops + 1;
      }
    }

    method Unregister(s: Socket)
      requires Valid() && s in Repr && s.processed == s.sent
      modifies this`slots, this`emptySlots, this`sockets, this`Repr, Repr`arrayIndex
      ensures Valid() && Repr == old(Repr) - {s} && |sockets| == |old(sockets)| - 1 && Room() == old(Room()) + 1
      ensures InRange(s.tid) && slots[s.tid] == Null && emptySlots == old(emptySlots) + [s.tid]
      ensures sockets == Erased(old(sockets), old(s.arrayIndex))
    {
      hide Counted, Covered, Fixed;
      Removable(s);
      emptySlots := emptySlots + [s.tid];
      slots := slots[s.tid := Null];
      Erase(s);
      UnregisteredCounted(s);
      UnregisteredCovered(s);
    }

    // It is in its slot, and no pending connection is its own.
    lemma Removable(s: Socket)
      requires Valid() && s in Repr && s.processed == s.sent
      ensures !starting && InRange(s.tid) && forall i :: 0 <= i < |pending| ==> pending[i].socket != s
    {
      hide Waits;
      NotWaiting(pending, s);
    }

    twostate lemma UnregisteredCounted(s: Socket)
      requires old(Counted()) && Repr == old(Repr) - {s} && pending == old(pending)
      requires forall i :: 0 <= i < |pending| ==> pending[i].socket != s
      requires forall t :: t in Repr ==>
                 t.sent == old(t.sent) && t.processed == old(t.processed) && t.inFlight == old(t.inFlight)
      ensures Counted()
    {
      hide Waits;
    }

    twostate lemma UnregisteredCovered(s: Socket)
      requires old(Fixed() && Covered()) && s in old(Repr) && Repr == old(Repr) - {s} && 0 <= s.tid < |old(slots)|
      requires emptySlots == old(emptySlots) + [s.tid] && slots == old(slots)[s.tid := Null]
      ensures Fixed() && Covered()
    {
      assert emptySlots[|emptySlots| - 1] == s.tid;
    }

    // array_t::erase
    method Erase(s: Socket)
      requires Listed() && s in Repr
      modifies this`sockets, this`Repr, Repr`arrayIndex
      ensures Listed() && Repr == old(Repr) - {s} && |sockets| == |old(sockets)| - 1
      ensures sockets == Erased(old(sockets), old(s.arrayIndex))
    {
      var index, last := s.arrayIndex, sockets[|sockets| - 1];
      last.arrayIndex := index;
      sockets := sockets[index := last][..|sockets| - 1];
      Repr := Repr - {s};
    }

    // Every socket is told to stop, once; without sockets it is the reaper.
    method StopAll()
      requires Valid() && !starting
      modifies this`reaperStops, Repr`stops
      ensures Valid() && reaperStops == old(reaperStops) + if sockets == [] then 1 else 0
      ensures forall s :: s in Repr ==> s.stops == old(s.stops) + 1
    {
      for i := 0 to |sockets|
        invariant Listed() && reaperStops == old(reaperStops)
        invariant forall s :: s in Repr ==> s.stops == old(s.stops) + if s.arrayIndex < i then 1 else 0
      {
        sockets[i].stops := sockets[i].stops + 1;
      }
      if sockets == [] {
        reaperStops := reaperStops + 1;
      }
    }

    method Shutdown()
      requires Valid()
      modifies this`terminating, this`reaperStops, Repr`stops
      ensures Valid() && terminating && (old(Once()) ==> Once())
      ensures forall s :: s in Repr ==> s.stops == old(s.stops) + if old(terminating) then 0 else 1
    {
      if !terminating {
        terminating := true;
        if !starting {
          StopAll();
        }
      }
    }

    // pend_connection, when the address is not bound: the socket is owed one more command.
    method Pend(s: Socket, address: nat)
      requires Valid() && s in Repr
      modifies this`pending, s`sent
      ensures Valid() && pending == old(pending) + [Connection(address, s)]
    {
      Settle(pending, Connection(address, s), []);
      s.sent := s.sent + 1;
      pending := pending + [Connection(address, s)];
    }

    // connect_pending: the sockets that wait for the address are sent their command.
    method Bind(address: nat)
      requires Valid()
      modifies this`pending, Repr`inFlight
      ensures Valid() && pending == Elsewhere(old(pending), address)
    {
      hide Listed, Covered, Fixed, Waits;
      var kept := [];
      assert pending[0..] == pending;
      OwedAll();
      for i := 0 to |pending|
        invariant pending == old(pending) && Listed()
        invariant kept == Elsewhere(pending[..i], address)
        invariant Owed(kept, pending[i..])
      {
        assert pending[..i + 1][..i] == pending[..i] && pending[i..] == [pending[i]] + pending[i + 1..];
        kept := Connect(kept, pending[i], pending[i + 1..], address);
      }
      assert pending[..|pending|] == pending && pending[|pending|..] == [];
      forall i | 0 <= i < |kept| ensures kept[i] in pending { ElsewhereIn(pending, address, kept[i]); }
      OwedNone(kept);
      pending := kept;
    }

    lemma OwedAll()
      requires Counted()
      ensures Owed([], pending)
    {
    }

    lemma OwedNone(kept: seq<Connection>)
      requires Owed(kept, [])
      ensures forall s :: s in Repr ==> s.sent == s.processed + s.inFlight + Waits(kept, s)
    {
    }

    method Connect(kept: seq<Connection>, c: Connection, ghost rest: seq<Connection>, address: nat)
      returns (kept': seq<Connection>)
      requires c.socket in Repr && Owed(kept, [c] + rest)
      modifies c.socket`inFlight
      ensures Owed(kept', rest) && kept' == if c.address == address then kept else kept + [c]
    {
      hide Waits;
      Settle(kept, c, rest);
      if c.address == address {
        c.socket.inFlight := c.socket.inFlight + 1;
        return kept;
      }
      return kept + [c];
    }

    lemma Settle(kept: seq<Connection>, c: Connection, rest: seq<Connection>)
      ensures forall s :: s in Repr ==>
                && Waits([c] + rest, s) == Waits(rest, s) + (if c.socket == s then 1 else 0)
                && Waits(kept + [c], s) == Waits(kept, s) + if c.socket == s then 1 else 0
    {
      assert ([c] + rest)[1..] == rest;
      forall s | s in Repr ensures Waits(kept + [c], s) == Waits(kept, s) + if c.socket == s then 1 else 0 {
        WaitsPush(kept, c, s);
      }
    }

    // A command on its way has arrived.
    method ProcessSeqnum(s: Socket)
      requires Valid() && s in Repr && s.inFlight > 0
      modifies s`processed, s`inFlight
      ensures Valid() && s.inFlight == old(s.inFlight) - 1 && s.processed == old(s.processed) + 1
    {
      s.inFlight, s.processed := s.inFlight - 1, s.processed + 1;
    }

    // A pending connection keeps its socket.
    lemma StillThere(i: nat)
      requires Valid() && i < |pending|
      ensures pending[i].socket in Repr && pending[i].socket.processed < pending[i].socket.sent
      ensures sockets != [] && !starting
    {
      WaitsSome(pending, i);
    }

    /**
      The first half of terminate, up to the wait for the reaper.  For every connection that is
      still pending a socket is made and binds its address, even if the context was terminating
      before; each must succeed (`ok`).  The reaper is told to stop once all the same, as none of
      the waiting sockets can have gone.
     */
    method Terminate(threads: nat, made: bool) returns (ok: bool)
      requires Valid() && Once()
      modifies this, Repr`stops, Repr`inFlight
      ensures Valid() && fresh(Repr - old(Repr)) && reaperStops <= 1
      ensures ok <==> old(pending) == [] || (made && old(Room()) >= |old(pending)|)
      ensures ok ==> Once() && pending == [] && |sockets| == |old(sockets)| + |old(pending)|
      ensures ok ==> old(sockets) <= sockets && old(Repr) <= Repr && Room() == old(Room()) - |old(pending)|
      ensures ok ==> starting == old(starting) && terminating == (old(terminating) || !starting)
      ensures ok ==> forall s :: s in old(Repr) ==>
                       s.stops == old(s.stops) + if starting || old(terminating) then 0 else 1
      ensures old(pending) == [] ==> sockets == old(sockets) && Repr == old(Repr)
    {
      hide Covered, Fixed, Listed, Counted;
      if pending != [] { StillThere(0); }
      var save := terminating;
      terminating := false;
      ok := BindAll(threads, made);
      if !ok {
        return;
      }
      terminating := save;
      if !starting {
        var restarted := terminating;
        terminating := true;
        if !restarted {
          StopAll();
        }
      }
    }

    method BindAll(threads: nat, made: bool) returns (ok: bool)
      requires Valid() && !terminating && (starting ==> pending == [])
      modifies this`starting, this`slots, this`emptySlots, this`sockets, this`Repr, this`ioList
      modifies this`pending, Repr`inFlight
      ensures Valid() && fresh(Repr - old(Repr)) && old(Repr) <= Repr && starting == old(starting)
      ensures ok <==> old(pending) == [] || (made && old(Room()) >= |old(pending)|)
      ensures ok ==> pending == [] && |sockets| == |old(sockets)| + |old(pending)|
      ensures ok ==> old(sockets) <= sockets && Room() == old(Room()) - |old(pending)|
      ensures old(pending) == [] ==> sockets == old(sockets) && Repr == old(Repr)
    {
      hide Covered, Fixed, Listed, Counted;
      var copy := pending;
      for i := 0 to |copy|
        invariant Valid() && fresh(Repr - old(Repr)) && old(Repr) <= Repr && starting == old(starting)
        invariant old(sockets) <= sockets && |sockets| == |old(sockets)| + i
        invariant Room() == old(Room()) - i && (i > 0 ==> made)
        invariant i == 0 ==> sockets == old(sockets) && Repr == old(Repr)
        invariant forall c :: c in pending ==> c in copy[i..]
      {
        var s := CreateSocket(threads, made);
        if s == null {
          return false;
        }
        assert copy[i..] == [copy[i]] + copy[i + 1..];
        ghost var was := pending;
        Bind(copy[i].address);
        forall c | c in pending ensures c in copy[i + 1..] { ElsewhereIn(was, copy[i].address, c); }
      }
      if pending != [] {
        HasOne(pending);
        assert false;
      }
      ok := true;
    }

    // No two sockets share a slot, and no socket has an empty one.
    lemma Disjoint()
      requires Valid()
      ensures forall i, j :: 0 <= i < j < |sockets| ==> sockets[i].tid != sockets[j].tid
      ensures forall i :: 0 <= i < |sockets| ==> sockets[i].tid !in emptySlots
      ensures !starting ==>
                forall t :: InRange(t) <==> t in emptySlots || exists i :: 0 <= i < |sockets| && sockets[i].tid == t
    {
      if !starting {
        forall t | InRange(t) && t !in emptySlots ensures exists i :: 0 <= i < |sockets| && sockets[i].tid == t {
          assert sockets[slots[t].socket.arrayIndex].tid == t;
        }
      }
    }

    ghost function Now(): State
      reads this, Repr
    {
      State(maxSockets, ioThreads, starting, terminating, emptySlots, sockets, pending,
            Flight(), Stops(), reaperStops)
    }

    ghost function Flight(): map<Socket, nat>
      reads this`Repr, Repr`inFlight
    {
      map x | x in Repr :: x.inFlight
    }

    ghost function Stops(): map<Socket, nat>
      reads this`Repr, Repr`stops
    {
      map x | x in Repr :: x.stops
    }

    twostate lemma Grown(new x: Socket)
      requires Repr == old(Repr) + {x} && x !in old(Repr) && x.inFlight == 0 && x.stops == 0
      requires forall y :: y in old(Repr) ==> y.inFlight == old(y.inFlight) && y.stops == old(y.stops)
      ensures Flight() == old(Flight())[x := 0] && Stops() == old(Stops())[x := 0]
    {
    }

    twostate lemma Shrunk(x: Socket)
      requires Repr == old(Repr) - {x}
      requires forall y :: y in Repr ==> y.inFlight == old(y.inFlight) && y.stops == old(y.stops)
      ensures Flight() == old(Flight()) - {x} && Stops() == old(Stops()) - {x}
    {
    }

    twostate lemma Arrived(x: Socket)
      requires Repr == old(Repr) && x in Repr && old(x.inFlight) > 0 && x.inFlight == old(x.inFlight) - 1
      requires forall y :: y in Repr && y != x ==> y.inFlight == old(y.inFlight)
      requires forall y :: y in Repr ==> y.stops == old(y.stops)
      ensures Flight() == old(Flight())[x := old(Flight())[x] - 1] && Stops() == old(Stops())
    {
    }

    lemma Orderly()
      requires Valid() && Once()
      ensures InOrder(Now())
    {
      Disjoint();
    }

    /**
      Any run, with terminate interrupted and restarted any number of times, and with connections
      pending whenever, is one of the machine above.  It ends early, before event `n`, if a socket
      that terminate needs cannot be made.
     */
    method Run(es: seq<Event>) returns (aborted: bool, ghost n: nat, ghost path: seq<State>)
      requires Valid() && Once()
      modifies this, Repr
      ensures Valid() && reaperStops <= 1 && n <= |es| && IsRun(Steps, path, es[..n]) && path[0] == old(Now())
      ensures if aborted then n < |es| && es[n].Terminates? && !Bindable(path[n], es[n].made)
              else n == |es| && path[n] == Now()
      ensures forall i :: 0 <= i <= n ==> InOrder(path[i])
    {
      hide Steps, InOrder, IsRun;
      path := [Now()];
      RunNone(Steps, Now(), es);
      Orderly();
      for i := 0 to |es|
        invariant Valid() && Once() && fresh(Repr - old(Repr))
        invariant |path| == i + 1 && IsRun(Steps, path, es[..i]) && path[0] == old(Now()) && path[i] == Now()
        invariant forall k :: 0 <= k <= i ==> InOrder(path[k])
      {
        var ok := Step(es[i]);
        if !ok {
          return true, i, path;
        }
        Orderly();
        RunOn(Steps, path, es, i, Now());
        path := path + [Now()];
      }
      assert es[..|es|] == es;
      return false, |es|, path;
    }

    method Step(e: Event) returns (ok: bool)
      requires Valid() && Once()
      modifies this, Repr
      ensures Valid() && reaperStops <= 1 && fresh(Repr - old(Repr))
      ensures ok <==> !(e.Terminates? && !Bindable(old(Now()), e.made))
      ensures ok ==> Once() && Steps(old(Now()), e, Now())
    {
      hide Covered, Fixed, Listed, Counted;
      ok := true;
      match e
      case Creates(threads, made) => Create(threads, made);
      case Connects(k, address) =>
        if k < |sockets| {
          Member(k);
          Pend(sockets[k], address);
        }
      case Binds(address) => Resolve(address);
      case Processes(k) => Process(k);
      case Destroys(k) => Destroy(k);
      case ShutsDown => Stop();
      case Terminates(threads, made) => ok := Finish(threads, made);
    }

    lemma Member(k: nat)
      requires Valid() && k < |sockets|
      ensures sockets[k] in Repr && sockets[k].arrayIndex == k
      ensures sockets[k].sent == sockets[k].processed + sockets[k].inFlight + Waits(pending, sockets[k])
    {
    }

    method Create(threads: nat, made: bool)
      requires Valid() && Once()
      modifies this`starting, this`slots, this`emptySlots, this`sockets, this`Repr, this`ioList
      ensures Valid() && Once() && fresh(Repr - old(Repr)) && Steps(old(Now()), Creates(threads, made), Now())
    {
      hide Covered, Fixed, Counted, Ctx.Flight, Ctx.Stops;
      var s := CreateSocket(threads, made);
      if s != null {
        assert s !in old(Repr);
        Grown(s);
        assert s !in old(sockets);
      }
    }

    method Resolve(address: nat)
      requires Valid()
      modifies this`pending, Repr`inFlight
      ensures Valid() && Steps(old(Now()), Binds(address), Now())
    {
      hide Covered, Fixed, Listed;
      Bind(address);
    }

    method Stop()
      requires Valid() && Once()
      modifies this`terminating, this`reaperStops, Repr`stops
      ensures Valid() && Once() && Steps(old(Now()), ShutsDown, Now())
    {
      hide Covered, Fixed, Listed, Counted;
      Shutdown();
    }

    method Process(k: nat)
      requires Valid()
      modifies Repr`processed, Repr`inFlight
      ensures Valid() && Steps(old(Now()), Processes(k), Now())
    {
      hide Covered, Fixed, Listed, Counted, Ctx.Flight, Ctx.Stops;
      if k < |sockets| {
        Member(k);
        Flying(sockets[k]);
        if sockets[k].inFlight > 0 {
          ProcessSeqnum(sockets[k]);
          Arrived(sockets[k]);
        }
      }
    }

    lemma Flying(x: Socket)
      requires x in Repr
      ensures x in Flight() && Flight()[x] == x.inFlight
    {
    }

    method Destroy(k: nat)
      requires Valid() && Once()
      modifies this`slots, this`emptySlots, this`sockets, this`Repr, this`reaperStops, Repr`arrayIndex
      ensures Valid() && Once() && Repr <= old(Repr) && Steps(old(Now()), Destroys(k), Now())
    {
      hide Covered, Fixed, Listed, Counted, Waits;
      if k < |sockets| {
        Member(k);
        if sockets[k].processed == sockets[k].sent {
          var s := sockets[k];
          DestroySocket(s);
          Shrunk(s);
        }
      }
    }

    method Finish(threads: nat, made: bool) returns (ok: bool)
      requires Valid() && Once()
      modifies this, Repr`stops, Repr`inFlight
      ensures Valid() && reaperStops <= 1 && fresh(Repr - old(Repr)) && ok == Bindable(old(Now()), made)
      ensures ok ==> Once() && Steps(old(Now()), Terminates(threads, made), Now())
    {
      hide Covered, Fixed, Listed;
      ok := Terminate(threads, made);
    }
  }
}
