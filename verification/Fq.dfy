/**
  The inbound fair queue (zmq::fq_t, ExternalLib/libzmq/src/fq.cpp): whole messages are read
  from the active pipes in turn.
 */
module Fq {
  import opened Message
  import opened Runs
  import opened PipeArray

  // A part and the pipe it was read from.
  datatype Part = Part(from: Pipe, b: Body)

  // A pipe delivers whole messages, so the last part waiting in it ends one.
  ghost predicate Complete(q: seq<Body>) {
    q != [] ==> !q[|q| - 1].more
  }

  // The parts of each message come from one pipe.
  ghost predicate OnePipe(got: seq<Part>) {
    forall i :: 1 <= i < |got| && got[i - 1].b.more ==> got[i].from == got[i - 1].from
  }

  ghost predicate MidMessage(got: seq<Part>) {
    got != [] && got[|got| - 1].b.more
  }

  lemma RoundRobin(i: nat, n: nat)
    requires i < n
    ensures (i + 1) % n == if i + 1 < n then i + 1 else 0
  {
  }

  lemma Broken(got: seq<Part>, p: Part)
    requires MidMessage(got) && p.from != got[|got| - 1].from
    ensures !OnePipe(got + [p])
  {
    var g := got + [p];
    assert g[|got| - 1].b.more && g[|got|].from != g[|got| - 1].from;
  }

  lemma Shorter(q: seq<Body>, b: Body, r: seq<Body>)
    requires Complete(q) && q == [b] + r
    ensures Complete(r) && (b.more ==> r != [])
  {
    assert r != [] ==> r[|r| - 1] == q[|q| - 1];
  }

  lemma Longer(got: seq<Part>, p: Part)
    requires OnePipe(got) && (MidMessage(got) ==> p.from == got[|got| - 1].from)
    ensures OnePipe(got + [p])
  {
  }

  // How many whole messages were read from pipes other than `p`.
  ghost function Wholes(got: seq<Part>, p: Pipe): nat {
    if got == [] then 0
    else Wholes(got[..|got| - 1], p) + if got[|got| - 1].from != p && !got[|got| - 1].b.more then 1 else 0
  }

  lemma WholesStep(got: seq<Part>, x: Part, p: Pipe)
    ensures Wholes(got + [x], p) == Wholes(got, p) + if x.from != p && !x.b.more then 1 else 0
  {
    assert (got + [x])[..|got|] == got;
  }

  // Since `was`, so many parts were read, none from `p`, and so many of them ended a message.
  ghost predicate Skipped(was: seq<Part>, got: seq<Part>, p: Pipe, others: nat, parts: nat) {
    && |got| == |was| + parts && got[..|was|] == was && others == Wholes(got[|was|..], p)
    && forall i :: |was| <= i < |got| ==> got[i].from != p
  }

  lemma SkippedNone(got: seq<Part>, p: Pipe)
    ensures Skipped(got, got, p, 0, 0)
  {
  }

  lemma SkippedStep(was: seq<Part>, got: seq<Part>, p: Pipe, others: nat, parts: nat)
    requires |got| > 0 && Skipped(was, got[..|got| - 1], p, others, parts)
    ensures got[|got| - 1].from != p ==>
              Skipped(was, got, p, others + (if got[|got| - 1].b.more then 0 else 1), parts + 1)
  {
    var g, x := got[..|got| - 1], got[|got| - 1];
    WholesStep(g[|was|..], x, p);
    assert got[|was|..] == g[|was|..] + [x];
    assert got[..|was|] == g[..|was|];
    if x.from != p {
      forall i | |was| <= i < |got| ensures got[i].from != p {
        if i < |g| { assert got[i] == g[i]; }
      }
    }
  }

  datatype Fate = Mixed | Tripped | Starved

  // What can happen to a fair queue.
  datatype Event =
    | Attaches(p: Pipe)
    | Terminates(p: Pipe)
    | Activates(p: Pipe)
    | Arrives(p: Pipe, bs: seq<Body>)
    | Receives
    | Polls
  {
    predicate OnPipe() {
      !Receives? && !Polls?
    }

    // No pipe comes, goes or is activated.
    predicate Calm() {
      Arrives? || Receives? || Polls?
    }
  }

  // How many receives there are, and what arrives in a pipe.
  ghost function Asked(es: seq<Event>): nat {
    if es == [] then 0 else Asked(es[..|es| - 1]) + if es[|es| - 1].Receives? then 1 else 0
  }

  ghost function Brought(es: seq<Event>, p: Pipe): seq<Body> {
    if es == [] then []
    else
      var e := es[|es| - 1];
      Brought(es[..|es| - 1], p) + if e.Arrives? && e.p == p then e.bs else []
  }

  lemma EventsOn(es: seq<Event>, i: nat, p: Pipe)
    requires i < |es|
    ensures Asked(es[..i + 1]) == Asked(es[..i]) + if es[i].Receives? then 1 else 0
    ensures Brought(es[..i + 1], p) == Brought(es[..i], p) + if es[i].Arrives? && es[i].p == p then es[i].bs else []
  {
    assert es[..i + 1][..i] == es[..i];
  }

  // What a fair queue is to its socket: the pipes that are attached, the active ones in their
  // turn, what was read, and what waits in every pipe there is, attached or not.
  datatype State = State(
    attached: set<Pipe>, ring: Ring, more: bool, got: seq<Part>, inboxes: map<Pipe, seq<Body>>)
  {
    // The pipe in the middle of a message goes, or it stands last and one between the first and it.
    predicate Tears(p: Pipe) {
      && more && ring.current < |ring.turn|
      && (p == ring.turn[ring.current]
          || (ring.current == |ring.turn| - 1 && ring.current > 0 && p in ring.turn[1..ring.current]))
    }

    // The attached pipes with something to read, and those without.
    ghost function Stocks(): set<Pipe> {
      set p | p in attached && p in inboxes && inboxes[p] != []
    }

    ghost function Empties(): set<Pipe> {
      set p | p in attached && p in inboxes && inboxes[p] == []
    }

    // The active pipes are read, or asked, in turn.
    ghost predicate Asks(t: Ring, rc: int, from: Pipe?, more: bool) {
      exists k: nat :: Served(ring, Stocks(), Empties(), t, rc, from, k, more)
    }
  }

  // The caller's side: pipes carry whole messages.  Left out are a termination that tears the
  // message under way, and an activation beyond the array or of the pipe in its middle.
  ghost predicate Permits(s: State, e: Event) {
    match e
    case Attaches(p) => p !in s.attached && p in s.inboxes && Complete(s.inboxes[p])
    case Terminates(p) => p in s.attached && !s.Tears(p)
    case Activates(p) =>
      p in s.attached && s.attached != Elements(s.ring.turn) && !(s.more && s.ring.At() == p)
    case Arrives(p, bs) => p in s.attached && p in s.inboxes && Complete(bs)
    case Receives => true
    case Polls => true
  }

  ghost predicate Moves(s: State, e: Event, t: State) {
    match e
    case Attaches(p) =>
      t == s.(attached := s.attached + {p}, ring := Ring(s.ring.turn + [p], s.ring.current))
    case Terminates(p) =>
      && Elements(t.ring.turn) == Elements(s.ring.turn) - {p} && (s.more ==> t.ring.At() == s.ring.At())
      && t == s.(attached := s.attached - {p}, ring := t.ring)
    case Activates(p) =>
      && t == s.(ring := t.ring)
      && if p !in s.ring.turn then Elements(t.ring.turn) == Elements(s.ring.turn) + {p}
         else exists q :: q in s.attached && q !in s.ring.turn && Elements(t.ring.turn) == Elements(s.ring.turn) + {q}
    case Arrives(p, bs) => p in s.inboxes && t == s.(inboxes := s.inboxes[p := s.inboxes[p] + bs])
    case Receives => (exists from :: from in s.Stocks() && Read(s, from, t)) || None(s, t)
    case Polls =>
      && t == s.(ring := t.ring)
      && if s.more then t.ring == s.ring
         else s.Asks(t.ring, 0, t.ring.At(), true) || s.Asks(t.ring, -1, null, true)
  }

  // The next part of a pipe was read; no active pipe had one.
  ghost predicate Read(s: State, from: Pipe, t: State)
    requires from in s.Stocks()
  {
    var b := s.inboxes[from][0];
    && s.Asks(t.ring, 0, from, b.more)
    && t == State(s.attached, t.ring, b.more, s.got + [Part(from, b)], s.inboxes[from := s.inboxes[from][1..]])
  }

  ghost predicate None(s: State, t: State) {
    !s.more && s.Asks(t.ring, -1, null, false) && t == s.(ring := t.ring)
  }

  // An event that is not permitted when its turn comes is skipped.
  ghost predicate Steps(s: State, e: Event, t: State) {
    if Permits(s, e) then Moves(s, e, t) else t == s
  }

  // What was read from a pipe, in order, and what arrived in it in a run.
  ghost function ReadFrom(got: seq<Part>, p: Pipe): seq<Body> {
    if got == [] then []
    else ReadFrom(got[..|got| - 1], p) + if got[|got| - 1].from == p then [got[|got| - 1].b] else []
  }

  ghost function Arrived(path: seq<State>, es: seq<Event>, p: Pipe): seq<Body>
    requires |path| == |es| + 1
  {
    if es == [] then []
    else
      var n := |es| - 1;
      Arrived(path[..n + 1], es[..n], p) + Landed(path[n], es[n], p)
  }

  ghost function Landed(s: State, e: Event, p: Pipe): seq<Body> {
    if e.Arrives? && e.p == p && Permits(s, e) then e.bs else []
  }

  /**
    Nothing is lost, made up or reordered: over any run, what was read from a pipe and what still
    waits in it is what had been read and waited at first, and what arrived.
   */
  lemma {:induction false} Conserved(path: seq<State>, es: seq<Event>, p: Pipe)
    requires |path| == |es| + 1 && IsRun(Steps, path, es) && p in path[0].inboxes
    ensures p in path[|es|].inboxes && Passed(path[|es|], p) == Passed(path[0], p) + Arrived(path, es, p)
  {
    hide Steps, Landed, Passed, IsRun;
    if es != [] {
      var n := |es| - 1;
      var init, s, t := path[..n + 1], path[n], path[n + 1];
      RunInit(Steps, path, es);
      Conserved(init, es[..n], p);
      ConservedStep(s, es[n], t, p);
      Regroup(Passed(path[0], p), Arrived(init, es[..n], p), Landed(s, es[n], p));
    }
  }

  // What was read from the pipe, and what still waits.
  ghost function Passed(s: State, p: Pipe): seq<Body>
    requires p in s.inboxes
  {
    ReadFrom(s.got, p) + s.inboxes[p]
  }

  lemma Regroup(a: seq<Body>, b: seq<Body>, c: seq<Body>)
    ensures a + b + c == a + (b + c)
  {
  }

  lemma ConservedStep(s: State, e: Event, t: State, p: Pipe)
    requires Steps(s, e, t) && p in s.inboxes
    ensures p in t.inboxes && Passed(t, p) == Passed(s, p) + Landed(s, e, p)
  {
    hide Served;
    if e.Receives? && !None(s, t) {
      var from :| from in s.Stocks() && Read(s, from, t);
      assert t.got[..|s.got|] == s.got && s.inboxes[from] == [s.inboxes[from][0]] + s.inboxes[from][1..];
    }
  }

  class Fq {
    const pipes: Array
    var active: nat
    var current: nat
    var more: bool
    // All parts read so far.
    ghost var got: seq<Part>

    ghost predicate Valid()
      reads this`active, this`current, pipes, pipes.Repr`arrayIndex
    {
      pipes.InTurn(active, current)
    }

    ghost predicate Stocked()
      reads pipes`Repr, pipes.Repr`inbox
    {
      forall p :: p in pipes.Repr ==> Complete(p.inbox)
    }

    // In the middle of a message the current pipe is the one that began it, and has the rest.
    ghost predicate Resumes()
      reads this`active, this`current, this`got, pipes, pipes.Repr`inbox, pipes.items
    {
      MidMessage(got) ==>
        && current < active <= |pipes.items| && pipes.items[current] == got[|got| - 1].from
        && pipes.items[current].inbox != []
    }

    ghost predicate Coherent()
      reads this, pipes, pipes.Repr, pipes.items
    {
      Valid() && Stocked() && OnePipe(got) && more == MidMessage(got) && Resumes()
    }

    ghost predicate Active(p: Pipe)
      reads this`active, pipes`Repr, p`arrayIndex
    {
      p in pipes.Repr && p.arrayIndex < active
    }

    // How many pipes are to be read before `p`.
    ghost function Distance(p: Pipe): int
      reads this`active, this`current, p`arrayIndex
    {
      if p.arrayIndex >= current then p.arrayIndex - current else p.arrayIndex - current + active
    }

    constructor ()
      ensures Coherent() && pipes.items == [] && pipes.Repr == {} && fresh(pipes)
      ensures active == 0 && current == 0 && got == []
    {
      pipes := new Array();
      active, current, more, got := 0, 0, false, [];
    }

    method Attach(p: Pipe)
      requires Coherent() && p !in pipes.Repr && Complete(p.inbox)
      modifies this`active, pipes, p`arrayIndex, pipes.Repr`arrayIndex
      ensures Coherent() && pipes.Repr == old(pipes.Repr) + {p} && active == old(active) + 1
      ensures pipes.First(active) == old(pipes.First(active)) + {p}
      ensures p.arrayIndex == old(active)
      ensures forall q :: q in old(pipes.Repr) && old(Active(q)) ==> q.arrayIndex == old(q.arrayIndex)
    {
      hide Complete, OnePipe;
      Place(p);
    }

    method Place(p: Pipe)
      requires Valid() && p !in pipes.Repr
      modifies this`active, pipes, p`arrayIndex, pipes.Repr`arrayIndex
      ensures Valid() && pipes.Repr == old(pipes.Repr) + {p} && active == old(active) + 1 && p.arrayIndex == old(active)
      ensures forall i :: 0 <= i < old(active) ==> pipes.items[i] == old(pipes.items[i])
    {
      pipes.PushBack(p);
      pipes.Swap(active, pipes.Size() - 1);
      active := active + 1;
    }

    // The pipe has something to read again.  It should not be active, as a pipe whose read fails
    // leaves the active ones; for any other the source swaps blindly, as the load balancer does.
    method Activated(p: Pipe) returns (inRange: bool)
      requires Coherent() && p in pipes.Repr
      modifies this`active, pipes`items, pipes.Repr`arrayIndex
      ensures inRange <==> old(active) < |old(pipes.items)|
      ensures !inRange ==> Coherent() && active == old(active) && pipes.items == old(pipes.items)
      ensures inRange ==> Valid() && active == old(active) + 1 && p.arrayIndex == old(active)
      ensures inRange ==> (pipes.First(active) == old(pipes.First(active)) + {p} <==> old(p.arrayIndex) >= old(active))
      ensures inRange && old(p.arrayIndex) < old(active) ==>
                pipes.First(active) == old(pipes.First(active)) + {old(pipes.items)[old(active)]}
      ensures inRange ==> (Coherent() <==> !(old(more) && old(p.arrayIndex) == old(current)))
    {
      hide Complete, OnePipe;
      inRange := active < pipes.Size();
      if inRange {
        ghost var q := pipes.items[active];
        assert q in pipes.Repr && q !in pipes.First(active);
        pipes.Swap(pipes.Index(p), active);
        active := active + 1;
        assert old(p.arrayIndex) < old(active) ==> q in pipes.First(active);
      }
    }

    // The pipe in the middle of a message goes, or it is the last active one and another goes.
    ghost predicate Tears(p: Pipe)
      reads this`active, this`current, this`more, p`arrayIndex
    {
      more && (p.arrayIndex == current || (current == active - 1 && 0 < p.arrayIndex < current))
    }

    // All is well exactly unless the message under way is torn: then the current pipe, if there
    // is one, is not the one that began it.
    method PipeTerminated(p: Pipe)
      requires Coherent() && p in pipes.Repr
      modifies this`active, this`current, pipes, pipes.Repr`arrayIndex
      ensures Valid() && pipes.Repr == old(pipes.Repr) - {p}
      ensures pipes.First(active) == old(pipes.First(active)) - {p}
      ensures Coherent() <==> !old(Tears(p))
      ensures active == old(active) - (if old(p.arrayIndex) < old(active) then 1 else 0)
      ensures old(Tears(p)) && active > 0 ==> pipes.items[current] != got[|got| - 1].from
    {
      hide Complete, OnePipe;
      active, current := pipes.Retire(p, active, current);
    }

    /**
      What the next receive makes of a torn message: it takes a part from another pipe for the
      next one of the message; or finds that pipe empty, against the assert of fq.cpp:107; or
      there is no active pipe, and the message never ends.
     */
    method AfterTear(p: Pipe) returns (fate: Fate, ghost q: Pipe?)
      requires Coherent() && p in pipes.Repr && Tears(p)
      modifies this, pipes, pipes.Repr
      ensures q == null <==> old(active) == 1
      ensures q != null ==> q in old(pipes.Repr) && q != old(got)[|old(got)| - 1].from
      ensures fate == if q == null then Starved else if old(q.inbox) == [] then Tripped else Mixed
      ensures match fate
              case Mixed => !OnePipe(got)
              case Tripped => got == old(got) && more && active > 0
              case Starved => got == old(got) && more && active == 0
    {
      hide Complete;
      PipeTerminated(p);
      if active == 0 {
        return Starved, null;
      }
      var from := pipes.items[current];
      var ok, b := TakeNext(from);
      if !ok {
        return Tripped, from;
      }
      Broken(old(got), Part(from, b));
      return Mixed, from;
    }

    // That happens: of two pipes the one in the middle of a message goes.
    static method Torn() returns (fate: Fate)
      ensures fate == Mixed
    {
      var fq, a, b := HalfRead();
      ghost var q;
      fate, q := fq.AfterTear(a);
    }

    static method HalfRead() returns (fq: Fq, a: Pipe, b: Pipe)
      ensures fresh(fq) && fresh(fq.pipes) && fresh(fq.pipes.Repr)
      ensures fq.Coherent() && fq.pipes.Repr == {a, b} && a != b && fq.active == 2 && fq.Tears(a)
      ensures fq.got != [] && fq.got[|fq.got| - 1].from == a && b.inbox != []
    {
      var part := EMPTY.(more := true);
      a := new Pipe([], [part, EMPTY]);
      b := new Pipe([], [EMPTY]);
      fq := AttachTwo(a, b);
      fq.ReadFrom(a, b);
    }

    static method AttachTwo(a: Pipe, b: Pipe) returns (fq: Fq)
      requires a != b && Complete(a.inbox) && Complete(b.inbox)
      modifies a`arrayIndex, b`arrayIndex
      ensures fresh(fq) && fresh(fq.pipes) && fq.Coherent() && fq.pipes.Repr == {a, b}
      ensures fq.active == 2 && fq.current == 0 && a.arrayIndex == 0 && b.arrayIndex == 1 && fq.got == []
    {
      hide Complete, OnePipe;
      fq := new Fq();
      fq.Attach(a);
      fq.Attach(b);
    }

    // Of two active pipes the current one begins a message.
    method ReadFrom(a: Pipe, b: Pipe)
      requires Coherent() && pipes.Repr == {a, b} && active == 2 && a.arrayIndex == current == 0 && b.arrayIndex == 1
      requires a.inbox != [] && a.inbox[0].more && b.inbox != [] && !b.inbox[0].more
      modifies this, pipes`items, pipes.Repr
      ensures Coherent() && pipes.Repr == {a, b} && active == 2 && Tears(a)
      ensures got != [] && got[|got| - 1].from == a && b.inbox == old(b.inbox)
    {
      hide Complete, OnePipe;
      assert Active(a) && Active(b) && Distance(a) == 0;
      var msg := new Msg();
      var rc, from, k := RecvPipe(msg, 0);
      assert from == a;
      assert pipes.items[current] == a && Active(b);
    }

    // The active pipes in their order, and the current one.
    ghost function Turn(): Ring
      requires Valid()
      reads this`active, this`current, pipes, pipes.Repr`arrayIndex
    {
      pipes.Turn(active, current)
    }

    // The attached pipes with something to read, and those without.
    ghost function Stocks(): set<Pipe>
      reads pipes`Repr, pipes.Repr`inbox
    {
      set p | p in pipes.Repr && p.inbox != []
    }

    ghost function Empties(): set<Pipe>
      reads pipes`Repr, pipes.Repr`inbox
    {
      set p | p in pipes.Repr && p.inbox == []
    }

    // The pipe at `current` is empty.  No other pipe has to wait longer.
    method Deactivate()
      requires Valid() && active > 0
      modifies this`active, this`current, pipes`items, pipes.Repr`arrayIndex
      ensures Valid() && active == old(active) - 1 && Turn() == old(Turn()).Demoted()
      ensures forall p :: p in pipes.Repr && old(Active(p)) && p != old(pipes.items[current]) ==>
                Active(p) && Distance(p) <= old(Distance(p))
      ensures forall p :: p in pipes.Repr && Active(p) ==> old(Active(p))
    {
      active, current := pipes.Demote(active, current);
    }

    // `k` empty pipes have been tried in turn and have left.
    ghost predicate Trying(r: Ring, yes: set<Pipe>, no: set<Pipe>, k: nat)
      reads this`active, this`current, pipes, pipes.Repr`arrayIndex, pipes.Repr`inbox
    {
      && Valid() && r.Ok() && k <= |r.turn| && Turn() == Rounds(r, k) && yes == Stocks() && no == Empties()
      && forall j :: 0 <= j < k ==> Candidate(r, j) !in yes
    }

    lemma TryingFirst()
      requires Valid()
      ensures Trying(Turn(), Stocks(), Empties(), 0)
    {
    }

    lemma TryingNow(r: Ring, yes: set<Pipe>, no: set<Pipe>, k: nat)
      requires Trying(r, yes, no, k) && active > 0
      ensures var p := pipes.items[current];
              && r.Ok() && k < |r.turn| && p == Candidate(r, k)
              && (p in yes <==> p.inbox != []) && (p in no <==> p.inbox == [])
      ensures Turn() == Rounds(r, k) && forall j :: 0 <= j < k ==> Candidate(r, j) !in yes
    {
      assert pipes.items[..active][current] == pipes.items[current];
    }

    lemma TriedAll(r: Ring, yes: set<Pipe>, no: set<Pipe>, k: nat)
      requires Trying(r, yes, no, k) && active == 0
      ensures forall m :: Served(r, yes, no, Turn(), -1, null, k, m)
    {
      forall p | p in r.turn ensures p !in yes {
        RoundsTried(r, k, p);
      }
    }

    method PassOn(ghost r: Ring, ghost yes: set<Pipe>, ghost no: set<Pipe>, ghost k: nat)
      requires Valid() && active > 0 && Trying(r, yes, no, k) && pipes.items[current].inbox == []
      modifies this`active, this`current, pipes`items, pipes.Repr`arrayIndex
      ensures Valid() && active == old(active) - 1 && Trying(r, yes, no, k + 1)
      ensures forall p :: p in pipes.Repr && old(Active(p)) && p != old(pipes.items[current]) ==>
                Active(p) && Distance(p) <= old(Distance(p))
      ensures forall p :: p in pipes.Repr && Active(p) ==> old(Active(p))
    {
      TryingNow(r, yes, no, k);
      RoundsStep(r, k);
      hide Rounds, Candidate;
      Deactivate();
    }

    // The active pipes with something to read are still active and wait no longer; `whole` more
    // messages from others have come before them.
    twostate predicate NoWorse(from: Pipe?, whole: nat)
      reads this, pipes, pipes.Repr
    {
      pipes.Repr == old(pipes.Repr) &&
      forall p :: p in pipes.Repr && old(Active(p)) && old(p.inbox) != [] && p != from ==>
        Active(p) && Distance(p) + whole <= old(Distance(p))
    }

    // 0: a part was read.  -1: every active pipe was empty, and is no longer active.
    method RecvPipe(msg: Msg, ghost h: int) returns (rc: int, from: Pipe?, ghost k: nat)
      requires Coherent() && Counts(msg.b, h) && msg.b.kind != Closed
      modifies this, pipes`items, pipes.Repr, msg, msg.b.Held()
      ensures Coherent() && (rc == 0 || rc == -1)
      ensures old(msg.b).IsLong() ==> Left(old(msg.b), h - 1)
      ensures active <= old(active) && (rc == 0 <==> from != null)
      ensures rc == 0 ==> from in old(pipes.Repr) && Took(from, msg.b) && NoWorse(from, if msg.b.more then 0 else 1)
      ensures rc == -1 ==> msg.b == EMPTY && got == old(got) && active == 0 && NoWorse(null, 0)
      ensures rc == -1 ==> forall p :: p in pipes.Repr ==> p.inbox == old(p.inbox)
      ensures Served(old(Turn()), old(Stocks()), old(Empties()), Turn(), rc, from, k, msg.b.more)
    {
      hide Coherent, Active, Distance, Served;
      var closed := msg.Close(h);
      assert closed == 0;
      var b: Body;
      rc, from, b, k := Fetch();
      msg.b := b;
    }

    // One part was read from `p`.
    twostate predicate Took(p: Pipe, new b: Body)
      reads this, pipes, pipes.Repr
    {
      && pipes.Repr == old(pipes.Repr) && p in pipes.Repr && old(Active(p)) && old(p.inbox) == [b] + p.inbox
      && got == old(got) + [Part(p, b)]
      && forall q :: q in pipes.Repr && q != p ==> q.inbox == old(q.inbox)
    }

    // Read the current pipe; after the last part of a message go on to the next pipe.
    method TakeNext(p: Pipe) returns (ok: bool, b: Body)
      requires Valid() && active > 0 && p == pipes.items[current]
      modifies this`more, this`current, this`got, p`inbox
      ensures Valid() && ok == (old(p.inbox) != [])
      ensures !ok ==> got == old(got) && p.inbox == old(p.inbox) && current == old(current) && more == old(more)
      ensures ok ==> old(p.inbox) == [b] + p.inbox && got == old(got) + [Part(p, b)] && more == b.more
      ensures Turn() == if ok && !b.more then old(Turn()).Next() else old(Turn())
      ensures ok ==> forall q :: q in pipes.Repr && Active(q) && q != p ==>
                Distance(q) + (if b.more then 0 else 1) == old(Distance(q))
    {
      ok, b := p.Read();
      if ok {
        more := b.more;
        got := got + [Part(p, b)];
        if !more {
          Next();
        }
      }
    }

    method Take(p: Pipe) returns (ok: bool, b: Body)
      requires Coherent() && active > 0 && p == pipes.items[current]
      modifies this`more, this`current, this`got, p`inbox
      ensures Coherent() && ok == (old(p.inbox) != [])
      ensures !ok ==> got == old(got) && p.inbox == old(p.inbox) && current == old(current) && more == old(more)
      ensures ok ==> old(p.inbox) == [b] + p.inbox && got == old(got) + [Part(p, b)]
      ensures Turn() == if ok && !b.more then old(Turn()).Next() else old(Turn())
      ensures ok ==> forall q :: q in pipes.Repr && Active(q) && q != p ==>
                Distance(q) + (if b.more then 0 else 1) == old(Distance(q))
    {
      hide OnePipe, Complete, Distance;
      ok, b := TakeNext(p);
      if ok {
        Longer(old(got), Part(p, b));
        Shorter(old(p.inbox), b, p.inbox);
      }
    }

    method Next()
      requires Valid() && active > 0
      modifies this`current
      ensures Valid() && Turn() == old(Turn()).Next()
      ensures forall q :: q in pipes.Repr && Active(q) && q.arrayIndex != old(current) ==>
                Distance(q) + 1 == old(Distance(q))
    {
      RoundRobin(current, active);
      current := (current + 1) % active;
    }

    method Fetch() returns (rc: int, from: Pipe?, b: Body, ghost k: nat)
      requires Coherent()
      modifies this, pipes`items, pipes.Repr
      ensures Coherent() && (rc == 0 || rc == -1)
      ensures active <= old(active) && (rc == 0 <==> from != null)
      ensures rc == 0 ==> from in old(pipes.Repr) && Took(from, b) && NoWorse(from, if b.more then 0 else 1)
      ensures rc == -1 ==> b == EMPTY && got == old(got) && active == 0 && NoWorse(null, 0)
      ensures rc == -1 ==> forall p :: p in pipes.Repr ==> p.inbox == old(p.inbox)
      ensures Served(old(Turn()), old(Stocks()), old(Empties()), Turn(), rc, from, k, b.more)
    {
      hide Trying, Served, Rounds, Candidate, OnePipe, Complete, Distance, Fq.Stocked;
      ghost var r, yes, no := Turn(), Stocks(), Empties();
      k := 0;
      TryingFirst();
      while active > 0
        invariant Coherent() && got == old(got) && active <= old(active)
        invariant pipes.Repr == old(pipes.Repr)
        invariant forall p :: p in pipes.Repr ==> p.inbox == old(p.inbox)
        invariant NoWorse(null, 0) && Trying(r, yes, no, k)
        invariant forall p :: p in pipes.Repr && Active(p) ==> old(Active(p))
        decreases active
      {
        TryingNow(r, yes, no, k);
        var fetched: bool;
        from := pipes.items[current];
        fetched, b := Take(from);
        if fetched {
          Chosen(r, yes, no, Turn(), k, from, b.more);
          return 0, from, b, k;
        }
        // The rest of a message never has to be waited for.
        assert !more;
        PassOn(r, yes, no, k);
        k := k + 1;
      }
      TriedAll(r, yes, no, k);
      return -1, null, EMPTY, k;
    }

    method HasIn() returns (r: bool, ghost k: nat)
      requires Coherent()
      modifies this`active, this`current, pipes`items, pipes.Repr`arrayIndex
      ensures Coherent() && NoWorse(null, 0)
      ensures r <==> active > 0
      ensures r ==> pipes.items[current].inbox != []
      ensures more ==> Turn() == old(Turn())
      ensures !more ==> Served(old(Turn()), old(Stocks()), old(Empties()), Turn(), if r then 0 else -1,
                               if r then pipes.items[current] else null, k, true)
    {
      hide Trying, Served, Rounds, Candidate;
      k := 0;
      if more {
        return true, 0;
      }
      ghost var g, yes, no := Turn(), Stocks(), Empties();
      TryingFirst();
      while active > 0
        invariant Coherent() && !more && pipes.Repr == old(pipes.Repr) && NoWorse(null, 0) && Trying(g, yes, no, k)
        decreases active
      {
        TryingNow(g, yes, no, k);
        if pipes.items[current].inbox != [] {
          Chosen(g, yes, no, Turn(), k, pipes.items[current], true);
          return true, k;
        }
        PassOn(g, yes, no, k);
        k := k + 1;
      }
      TriedAll(g, yes, no, k);
      return false, k;
    }

    /**
      Events go on until a part is read from `p`, which is active and has a message waiting:
      before that at most `active - 1` whole messages come from other pipes, and no receive
      fails.
     */
    method Wait(p: Pipe, es: seq<Event>) returns (served: bool, others: nat, receives: nat)
      requires Coherent() && Active(p) && p.inbox != []
      requires forall i :: 0 <= i < |es| ==>
                 es[i].Calm() && (es[i].Arrives? ==> es[i].p in pipes.Repr && Complete(es[i].bs))
      modifies this, pipes`items, pipes.Repr
      ensures Coherent() && others <= old(Distance(p)) < old(active)
      ensures !served ==> receives == Asked(es) && p.inbox == old(p.inbox) + Brought(es, p)
      ensures if served then
                && |got| > 0 && got[|got| - 1].from == p && receives > 0
                && Skipped(old(got), got[..|got| - 1], p, others, receives - 1)
              else Skipped(old(got), got, p, others, receives)
    {
      hide OnePipe, Complete, Skipped;
      others, receives := 0, 0;
      SkippedNone(got, p);
      for i := 0 to |es|
        invariant Coherent() && Active(p) && p.inbox != [] && pipes.Repr == old(pipes.Repr)
        invariant others + Distance(p) <= old(Distance(p))
        invariant Skipped(old(got), got, p, others, receives)
        invariant receives == Asked(es[..i]) && p.inbox == old(p.inbox) + Brought(es[..i], p)
      {
        EventsOn(es, i, p);
        if es[i].Receives? {
          var served', whole := Receive(p);
          SkippedStep(old(got), got, p, others, receives);
          receives := receives + 1;
          if served' {
            return true, others, receives;
          }
          if whole {
            others := others + 1;
          }
        } else {
          Other(es[i]);
        }
      }
      assert es[..|es|] == es;
      return false, others, receives;
    }

    method Receive(p: Pipe) returns (served: bool, whole: bool)
      requires Coherent() && Active(p) && p.inbox != []
      modifies this, pipes`items, pipes.Repr
      ensures Coherent() && pipes.Repr == old(pipes.Repr)
      ensures |got| == |old(got)| + 1 && got[..|old(got)|] == old(got)
      ensures served == (got[|old(got)|].from == p) && whole == !got[|old(got)|].b.more
      ensures !served ==> Active(p) && p.inbox == old(p.inbox)
      ensures !served ==> Distance(p) + (if whole then 1 else 0) <= old(Distance(p))
    {
      var msg := new Msg();
      var _, from, k := RecvPipe(msg, 0);
      served, whole := from == p, !msg.b.more;
    }

    // Nothing is read.
    method Other(e: Event)
      requires Coherent() && (e.Polls? || e.Arrives?) && (e.Arrives? ==> e.p in pipes.Repr && Complete(e.bs))
      modifies this`active, this`current, pipes`items, pipes.Repr`arrayIndex, pipes.Repr`inbox
      ensures Coherent() && NoWorse(null, 0)
      ensures forall q :: q in pipes.Repr ==>
                q.inbox == if e.Arrives? && e.p == q then old(q.inbox) + e.bs else old(q.inbox)
      ensures e.Arrives? ==> active == old(active) && current == old(current) && pipes.items == old(pipes.items)
    {
      match e
      case Polls => var _, k := HasIn();
      case Arrives(q, bs) => q.inbox := q.inbox + bs;
    }

    // ------------------------------------------------------------ runs

    ghost function Inboxes(all: set<Pipe>): map<Pipe, seq<Body>>
      reads all`inbox
    {
      map p | p in all :: p.inbox
    }

    ghost function Now(all: set<Pipe>): State
      requires Valid()
      reads this, pipes, pipes.Repr`arrayIndex, all`inbox
    {
      State(pipes.Repr, Turn(), more, got, Inboxes(all))
    }

    // Position and turn of a pipe agree, and the state says what the queue does.
    lemma Agrees(p: Pipe, all: set<Pipe>)
      requires Valid() && p in pipes.Repr
      ensures p in Turn().turn <==> p.arrayIndex < active
      ensures pipes.Repr == Elements(Turn().turn) <==> active == |pipes.items|
      ensures active > 0 ==> (Now(all).Tears(p) <==> Tears(p)) && (Turn().At() == p <==> p.arrayIndex == current)
    {
      var turn := Turn().turn;
      if p.arrayIndex < active { assert turn[p.arrayIndex] == p; }
      if 0 < p.arrayIndex < current < active { assert turn[1..current][p.arrayIndex - 1] == p; }
      assert 0 < current < active ==> forall q :: q in turn[1..current] ==> 0 < q.arrayIndex < current;
      Actives();
      if active < |pipes.items| { assert pipes.items[active] in pipes.Repr; }
    }

    lemma Actives()
      requires Valid()
      ensures Elements(Turn().turn) == pipes.First(active) <= pipes.Repr
    {
      forall p ensures p in Turn().turn <==> p in pipes.First(active) {
        if p in pipes.First(active) { assert Turn().turn[p.arrayIndex] == p; }
      }
    }

    lemma Stocking(all: set<Pipe>)
      requires Valid() && pipes.Repr <= all
      ensures Now(all).Stocks() == Stocks() && Now(all).Empties() == Empties()
    {
    }

    // Whatever is attached, activated, terminated, delivered and read, the run is one of the
    // machine above, and after every event the parts of each message come from one pipe.
    method Run(es: seq<Event>, ghost all: set<Pipe>) returns (ghost path: seq<State>)
      requires Coherent() && pipes.Repr <= all
      requires forall i :: 0 <= i < |es| && es[i].OnPipe() ==> es[i].p in all
      modifies this, pipes, all
      ensures Coherent() && IsRun(Steps, path, es) && path[0] == old(Now(all)) && path[|es|] == Now(all)
      ensures forall i :: 0 <= i <= |es| ==> OnePipe(path[i].got)
    {
      hide Complete, OnePipe, IsRun, Moves, Permits;
      path := [Now(all)];
      RunNone(Steps, Now(all), es);
      for i := 0 to |es|
        invariant |path| == i + 1 && IsRun(Steps, path, es[..i]) && path[0] == old(Now(all))
        invariant Coherent() && pipes.Repr <= all && path[i] == Now(all)
        invariant forall k :: 0 <= k <= i ==> OnePipe(path[k].got)
      {
        var ok := Permitted(es[i], all);
        if ok {
          Step(es[i], all);
        }
        RunOn(Steps, path, es, i, Now(all));
        path := path + [Now(all)];
      }
      assert es[..|es|] == es;
    }

    method Step(e: Event, ghost all: set<Pipe>)
      requires Coherent() && pipes.Repr <= all && Permits(Now(all), e) && (e.OnPipe() ==> e.p in all)
      modifies this, pipes, all
      ensures Coherent() && pipes.Repr <= all && Moves(old(Now(all)), e, Now(all))
    {
      hide Complete, OnePipe;
      match e
      case Attaches(p) => Enter(p, all);
      case Terminates(p) => Quit(p, all);
      case Activates(p) => Wake(p, all);
      case Arrives(_, _) => Deliver(e, all);
      case Receives => Receives(all);
      case Polls => Poll(all);
    }

    method Enter(p: Pipe, ghost all: set<Pipe>)
      requires Coherent() && Permits(Now(all), Attaches(p)) && p in all
      modifies this`active, pipes, p`arrayIndex, pipes.Repr`arrayIndex
      ensures Coherent() && pipes.Repr == old(pipes.Repr) + {p} && Moves(old(Now(all)), Attaches(p), Now(all))
    {
      hide Complete, OnePipe;
      Attach(p);
      assert Turn().turn == old(Turn().turn) + [p];
    }

    method Quit(p: Pipe, ghost all: set<Pipe>)
      requires Coherent() && Permits(Now(all), Terminates(p))
      modifies this`active, this`current, pipes, pipes.Repr`arrayIndex
      ensures Coherent() && pipes.Repr == old(pipes.Repr) - {p} && Moves(old(Now(all)), Terminates(p), Now(all))
    {
      hide Complete, OnePipe;
      Agrees(p, all);
      Actives();
      PipeTerminated(p);
      Actives();
    }

    method Wake(p: Pipe, ghost all: set<Pipe>)
      requires Coherent() && Permits(Now(all), Activates(p))
      modifies this`active, pipes`items, pipes.Repr`arrayIndex
      ensures Coherent() && Moves(old(Now(all)), Activates(p), Now(all))
    {
      hide Complete, OnePipe;
      Agrees(p, all);
      Actives();
      var inRange := Activated(p);
      Actives();
    }

    method Receives(ghost all: set<Pipe>)
      requires Coherent() && pipes.Repr <= all
      modifies this, pipes`items, pipes.Repr
      ensures Coherent() && pipes.Repr == old(pipes.Repr) && Moves(old(Now(all)), Event.Receives, Now(all))
    {
      hide Complete, OnePipe, Served;
      Stocking(all);
      ghost var s := Now(all);
      var msg := new Msg();
      var rc, from, k := RecvPipe(msg, 0);
      ghost var t := Now(all);
      assert if rc == 0 then Read(s, from, t) else None(s, t);
    }

    method Deliver(e: Event, ghost all: set<Pipe>)
      requires Coherent() && pipes.Repr <= all && e.Arrives? && Permits(Now(all), e)
      modifies this`active, this`current, pipes`items, pipes.Repr`arrayIndex, pipes.Repr`inbox
      ensures Coherent() && Moves(old(Now(all)), e, Now(all))
    {
      hide OnePipe, Complete;
      ghost var s := Now(all);
      Other(e);
      assert Inboxes(all) == s.inboxes[e.p := s.inboxes[e.p] + e.bs];
    }

    method Poll(ghost all: set<Pipe>)
      requires Coherent() && pipes.Repr <= all
      modifies this`active, this`current, pipes`items, pipes.Repr`arrayIndex
      ensures Coherent() && Moves(old(Now(all)), Polls, Now(all))
    {
      hide Complete, OnePipe, Served;
      Stocking(all);
      var r, k := HasIn();
    }

    method Permitted(e: Event, ghost all: set<Pipe>) returns (r: bool)
      requires Coherent() && pipes.Repr <= all && (e.OnPipe() ==> e.p in all)
      ensures r == Permits(Now(all), e)
    {
      if e.OnPipe() && e.p in pipes.Repr { Agrees(e.p, all); }
      match e
      case Attaches(p) => r := !pipes.Has(p) && (p.inbox != [] ==> !p.inbox[|p.inbox| - 1].more);
      case Terminates(p) =>
        var index := pipes.Index(p);
        r := pipes.Has(p) && !(more && (index == current || (current == active - 1 && 0 < index < current)));
      case Activates(p) => r := pipes.Has(p) && active < pipes.Size() && !(more && pipes.Index(p) == current);
      case Arrives(p, bs) => r := pipes.Has(p) && (bs != [] ==> !bs[|bs| - 1].more);
      case Receives => r := true;
      case Polls => r := true;
    }
  }
}
