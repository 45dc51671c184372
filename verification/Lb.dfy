/**
  The outbound load balancer (zmq::lb_t, ExternalLib/libzmq/src/lb.cpp): messages go round the
  active pipes, all parts of one message to the same pipe.
 */
module Lb {
  import opened Message
  import opened Runs
  import opened PipeArray

  // ---------------------------------------------------------------- whole messages

  // A concatenation of whole messages: a part that says more is followed by the next part of
  // its message, and a part that does not is followed by the first part of a later message.
  ghost predicate Whole(out: seq<Body>, st: seq<Stamp>) {
    && |out| == |st|
    && (st != [] ==> st[0].part == 0)
    && forall i :: 0 <= i < |st| ==> Follows(out, st, i)
  }

  // After the flushed part come exactly the first `parts` parts of message `cur`, all saying more.
  ghost predicate Open(out: seq<Body>, st: seq<Stamp>, flushed: nat, cur: nat, parts: nat) {
    && |out| == |st| == flushed + parts
    && forall i :: flushed <= i < |st| ==> st[i] == Stamp(cur, i - flushed) && out[i].more
  }

  lemma OpenMore(out: seq<Body>, st: seq<Stamp>, flushed: nat, cur: nat, parts: nat, b: Body)
    requires Open(out, st, flushed, cur, parts) && b.more
    ensures Open(out + [b], st + [Stamp(cur, parts)], flushed, cur, parts + 1)
  {
  }

  // What follows part `i`.
  ghost predicate Follows(out: seq<Body>, st: seq<Stamp>, i: nat)
    requires i < |st| == |out|
  {
    if out[i].more then i + 1 < |st| && st[i + 1] == Stamp(st[i].msg, st[i].part + 1)
    else i + 1 < |st| ==> st[i + 1].part == 0 && st[i + 1].msg > st[i].msg
  }

  // Whole messages with more behind them.
  lemma FollowsOn(out: seq<Body>, st: seq<Stamp>, n: nat, i: nat)
    requires i < n < |st| == |out| && Whole(out[..n], st[..n])
    requires st[n].part == 0 && st[n].msg > st[n - 1].msg
    ensures Follows(out, st, i)
  {
    assert Follows(out[..n], st[..n], i);
  }

  // The last part makes the message whole.
  lemma OpenLast(out: seq<Body>, st: seq<Stamp>, flushed: nat, cur: nat, parts: nat, b: Body)
    requires Open(out, st, flushed, cur, parts) && !b.more
    requires Whole(out[..flushed], st[..flushed]) && forall i :: 0 <= i < flushed ==> st[i].msg < cur
    ensures Whole(out + [b], st + [Stamp(cur, parts)])
  {
    var o, s := out + [b], st + [Stamp(cur, parts)];
    assert o[..flushed] == out[..flushed] && s[..flushed] == st[..flushed];
    forall i | 0 <= i < |s| ensures Follows(o, s, i) {
      if i < flushed { FollowsOn(o, s, flushed, i); }
    }
    assert flushed > 0 ==> s[0] == st[..flushed][0];
  }

  // ---------------------------------------------------------------- the books

  // What a pipe holds.
  datatype Log = Log(out: seq<Body>, flushed: nat, stamps: seq<Stamp>) {
    ghost predicate Ok() {
      flushed <= |out| == |stamps|
    }

    function Written(b: Body, at: Stamp): Log {
      Log(out + [b], flushed, stamps + [at])
    }

    function Flushed(): Log {
      Log(out, |out|, stamps)
    }

    function RolledBack(): Log
      requires flushed <= |out| == |stamps|
    {
      Log(out[..flushed], flushed, stamps[..flushed])
    }
  }

  /**
    The run so far.  `cur` is the message under way, or the next one, and `parts` of its parts
    have been presented; `busy` says that they are on a pipe.  `home` gives the pipe that took
    the first part of each message, `lost` the messages given up.
   */
  datatype Book = Book(cur: nat, parts: nat, busy: bool, home: map<nat, Pipe>, lost: set<nat>) {
    predicate Holder(p: Pipe) {
      cur in home && home[cur] == p
    }

    // The place of the next part.
    function At(): Stamp {
      Stamp(cur, parts)
    }

    function Advance(more: bool): Book {
      if more then this.(parts := parts + 1) else this.(cur := cur + 1, parts := 0)
    }

    // One more part, on pipe `p`.
    function Put(p: Pipe, more: bool): Book {
      this.(home := home[cur := p], busy := more).Advance(more)
    }

    function Lose(): Book {
      this.(busy := false, lost := lost + {cur})
    }

    // One more part, on no pipe.
    function Skip(more: bool): Book {
      this.(busy := false).Advance(more)
    }

    ghost predicate Ok() {
      && (busy ==> parts > 0 && cur in home)
      && (parts > 0 && !busy ==> cur in lost)
      && (forall k :: k in home ==> k < cur || (k == cur && parts > 0))
      && (forall k :: k in lost ==> k < cur || (k == cur && parts > 0 && !busy))
    }
  }

  // One pipe: it holds only messages that are at home on it; what it has flushed is whole
  // messages, none of them lost; if it is busy, the rest is the message under way.
  ghost predicate Tidy(g: Book, p: Pipe, l: Log) {
    && l.Ok() && Whole(l.out[..l.flushed], l.stamps[..l.flushed])
    && (forall i :: 0 <= i < |l.stamps| ==> l.stamps[i].msg in g.home && g.home[l.stamps[i].msg] == p)
    && (forall i :: 0 <= i < l.flushed ==> l.stamps[i].msg < g.cur && l.stamps[i].msg !in g.lost)
    && (g.busy && g.Holder(p) ==> Open(l.out, l.stamps, l.flushed, g.cur, g.parts))
  }

  // Message `k` has been flushed by its pipe.
  ghost predicate Delivered(g: Book, m: map<Pipe, Log>, k: nat) {
    k in g.home && g.home[k] in m && m[g.home[k]].Ok() && Stamp(k, 0) in m[g.home[k]].stamps[..m[g.home[k]].flushed]
  }

  ghost predicate Books(g: Book, m: map<Pipe, Log>) {
    && g.Ok()
    && (forall p :: p in m ==> Tidy(g, p, m[p]))
    && (forall k :: 0 <= k < g.cur && k !in g.lost ==> Delivered(g, m, k))
  }

  // A pipe that has taken a part, and flushed it if it was the last.
  ghost function After(l: Log, b: Body, at: Stamp): Log {
    if b.more then l.Written(b, at) else l.Written(b, at).Flushed()
  }

  // `p` may take the next part.
  ghost predicate Ready(g: Book, m: map<Pipe, Log>, p: Pipe) {
    Books(g, m) && p in m && g.cur !in g.lost && if g.busy then g.Holder(p) else m[p].flushed == |m[p].out|
  }

  lemma Readied(g: Book, m: map<Pipe, Log>, p: Pipe)
    requires Books(g, m) && p in m && if g.busy then g.Holder(p) else g.parts == 0 && m[p].flushed == |m[p].out|
    ensures Ready(g, m, p)
  {
  }

  lemma TidyMore(g: Book, p: Pipe, l: Log, b: Body)
    requires Tidy(g, p, l) && g.Ok() && b.more && if g.busy then g.Holder(p) else g.parts == 0 && l.flushed == |l.out|
    ensures Tidy(g.Put(p, true), p, l.Written(b, Stamp(g.cur, g.parts)))
    ensures l.Written(b, Stamp(g.cur, g.parts)).stamps[..l.flushed] == l.stamps[..l.flushed]
  {
    var l' := l.Written(b, Stamp(g.cur, g.parts));
    OpenMore(l.out, l.stamps, l.flushed, g.cur, g.parts, b);
    assert l'.out[..l.flushed] == l.out[..l.flushed] && l'.stamps[..l.flushed] == l.stamps[..l.flushed];
  }

  lemma TidyLast(g: Book, p: Pipe, l: Log, b: Body)
    requires Tidy(g, p, l) && g.Ok() && !b.more && if g.busy then g.Holder(p) else g.parts == 0 && l.flushed == |l.out|
    requires g.cur !in g.lost
    ensures Tidy(g.Put(p, false), p, l.Written(b, Stamp(g.cur, g.parts)).Flushed())
    ensures l.Ok() && Stamp(g.cur, 0) in l.stamps + [Stamp(g.cur, g.parts)]
  {
    var l' := l.Written(b, Stamp(g.cur, g.parts)).Flushed();
    OpenLast(l.out, l.stamps, l.flushed, g.cur, g.parts, b);
    assert l'.out[..l'.flushed] == l'.out && l'.stamps[..l'.flushed] == l'.stamps;
    assert l'.stamps[l.flushed] == Stamp(g.cur, 0);
  }

  lemma PutMore(g: Book, m: map<Pipe, Log>, p: Pipe, b: Body)
    requires Ready(g, m, p) && b.more
    ensures g.Put(p, true).Ok() && Books(g.Put(p, true), m[p := m[p].Written(b, Stamp(g.cur, g.parts))])
  {
    hide Tidy;
    var g', m' := g.Put(p, true), m[p := m[p].Written(b, Stamp(g.cur, g.parts))];
    TidyMore(g, p, m[p], b);
    forall k | 0 <= k < g'.cur && k !in g'.lost ensures Delivered(g', m', k) {
      assert Delivered(g, m, k);
    }
    forall q | q in m && q != p ensures Tidy(g', q, m[q]) {
      Others(g, m, p, q, true);
    }
  }

  lemma PutLast(g: Book, m: map<Pipe, Log>, p: Pipe, b: Body)
    requires Ready(g, m, p) && !b.more
    ensures g.Put(p, false).Ok() && Books(g.Put(p, false), m[p := m[p].Written(b, Stamp(g.cur, g.parts)).Flushed()])
  {
    hide Tidy;
    var g', m' := g.Put(p, false), m[p := m[p].Written(b, Stamp(g.cur, g.parts)).Flushed()];
    TidyLast(g, p, m[p], b);
    assert m'[p].stamps[..m'[p].flushed] == m'[p].stamps;
    forall k | 0 <= k < g'.cur && k !in g'.lost ensures Delivered(g', m', k) {
      if k < g.cur {
        assert Delivered(g, m, k);
      }
    }
    forall q | q in m && q != p ensures Tidy(g', q, m[q]) {
      Others(g, m, p, q, false);
    }
  }

  lemma PutPart(g: Book, m: map<Pipe, Log>, p: Pipe, b: Body)
    requires Books(g, m) && p in m && if g.busy then g.Holder(p) else g.parts == 0 && m[p].flushed == |m[p].out|
    ensures var h := g.Put(p, b.more);
            && h.Ok() && Books(h, m[p := After(m[p], b, g.At())])
            && h.busy == b.more && (h.parts > 0 <==> b.more) && (b.more ==> h.Holder(p))
  {
    hide Books, Ready;
    Readied(g, m, p);
    if b.more { PutMore(g, m, p, b); } else { PutLast(g, m, p, b); }
  }

  lemma Others(g: Book, m: map<Pipe, Log>, p: Pipe, q: Pipe, more: bool)
    requires Ready(g, m, p) && q in m && q != p
    ensures Tidy(g.Put(p, more), q, m[q])
  {
    assert Tidy(g, q, m[q]);
  }

  // The rest of a message is given up.
  lemma Losing(g: Book, m: map<Pipe, Log>)
    requires Books(g, m) && g.busy
    ensures g.Lose().Ok() && Books(g.Lose(), m)
  {
    forall k | 0 <= k < g.cur && k !in g.Lose().lost ensures Delivered(g.Lose(), m, k) {
      assert Delivered(g, m, k);
    }
  }

  lemma Skipping(g: Book, m: map<Pipe, Log>, more: bool)
    requires Books(g, m) && g.cur in g.lost
    ensures g.Skip(more).Ok() && Books(g.Skip(more), m)
  {
    var g' := g.Skip(more);
    forall k | 0 <= k < g'.cur && k !in g'.lost ensures Delivered(g', m, k) {
      assert Delivered(g, m, k);
    }
  }

  lemma TidyBack(g: Book, p: Pipe, l: Log)
    requires Tidy(g, p, l) && !g.busy
    ensures l.Ok() && Tidy(g, p, l.RolledBack()) && l.RolledBack().stamps[..l.flushed] == l.stamps[..l.flushed]
  {
    assert l.RolledBack().out[..l.flushed] == l.out[..l.flushed];
    assert l.RolledBack().stamps[..l.flushed] == l.stamps[..l.flushed];
  }

  lemma RollingBack(g: Book, m: map<Pipe, Log>, p: Pipe)
    requires Books(g, m) && !g.busy && p in m && m[p].Ok()
    ensures Books(g, m[p := m[p].RolledBack()])
  {
    hide Tidy;
    TidyBack(g, p, m[p]);
    forall k | 0 <= k < g.cur && k !in g.lost ensures Delivered(g, m[p := m[p].RolledBack()], k) {
      assert Delivered(g, m, k);
    }
  }

  lemma Aborting(g: Book, m: map<Pipe, Log>, p: Pipe, more: bool)
    requires Books(g, m) && g.busy && p in m && m[p].Ok()
    ensures var h := g.Lose().Skip(more);
            h.Ok() && Books(h, m[p := m[p].RolledBack()]) && !h.busy && (h.parts > 0 <==> more)
  {
    hide Tidy, Delivered;
    Losing(g, m);
    RollingBack(g.Lose(), m, p);
    Skipping(g.Lose(), m[p := m[p].RolledBack()], more);
  }

  // A part that is not the first of its message, behind whole messages, never makes them whole.
  lemma Misplaced(out: seq<Body>, st: seq<Stamp>, n: nat)
    requires n < |st| == |out| && Whole(out[..n], st[..n]) && st[n].part > 0
    ensures !Whole(out, st)
  {
    if n > 0 {
      assert Follows(out[..n], st[..n], n - 1);
      assert !Follows(out, st, n - 1);
    }
  }

  lemma TornLast(g: Book, p: Pipe, l: Log, b: Body)
    requires Tidy(g, p, l) && l.flushed == |l.out| && g.parts > 0 && !b.more
    ensures var w := l.Written(b, Stamp(g.cur, g.parts)).Flushed(); !Whole(w.out, w.stamps)
  {
    var w := l.Written(b, Stamp(g.cur, g.parts)).Flushed();
    assert w.out[..|l.out|] == l.out[..l.flushed] && w.stamps[..|l.out|] == l.stamps[..l.flushed];
    Misplaced(w.out, w.stamps, |l.out|);
  }

  lemma BooksTidy(g: Book, m: map<Pipe, Log>, p: Pipe)
    requires Books(g, m) && p in m
    ensures Tidy(g, p, m[p]) && m[p].Ok()
    ensures g.busy && g.Holder(p) ==> forall i :: m[p].flushed <= i < |m[p].out| ==> m[p].out[i].more
  {
  }

  // What can happen to a load balancer.  A part is sent as a fresh small message.
  datatype Event = Attaches(p: Pipe) | Terminates(p: Pipe) | Activates(p: Pipe) | Sends(more: bool) | Polls {
    predicate OnPipe() {
      Attaches? || Terminates? || Activates?
    }
  }

  // What a load balancer is to its socket: the pipes that are attached, the active ones in their
  // turn, and the books on every pipe there is, attached or not.
  datatype State = State(
    attached: set<Pipe>, ring: Ring, more: bool, dropping: bool, g: Book, m: map<Pipe, Log>)
  {
    // The pipe is in the middle of a message.
    predicate Occupied(p: Pipe) {
      more && !dropping && ring.current < |ring.turn| && p == ring.turn[ring.current]
    }

    // The current pipe stands last, and the other one between the first and it.
    predicate Slips(p: Pipe) {
      more && !dropping && ring.current == |ring.turn| - 1 && ring.current > 0 && p in ring.turn[1..ring.current]
    }
  }

  // The caller's side, and the cases left out: a termination that tears a message apart (see
  // PipeTerminated), and an activation beyond the array or of the pipe in the middle of a message
  // (see Activated).
  ghost predicate Permits(s: State, e: Event) {
    match e
    case Attaches(p) => p !in s.attached && p in s.m && s.m[p].flushed == |s.m[p].out|
    case Terminates(p) => p in s.attached && !s.Slips(p)
    case Activates(p) => p in s.attached && s.attached != Elements(s.ring.turn) && !s.Occupied(p)
    case Sends(_) => true
    case Polls => true
  }

  ghost predicate Moves(s: State, e: Event, t: State) {
    match e
    case Attaches(p) =>
      t == s.(attached := s.attached + {p}, ring := Ring(s.ring.turn + [p], s.ring.current))
    case Terminates(p) =>
      && Elements(t.ring.turn) == Elements(s.ring.turn) - {p}
      && (s.g.busy && !s.Occupied(p) ==> t.ring.Ok() && s.ring.Ok() && t.ring.At() == s.ring.At())
      && t == (if s.Occupied(p) then s.(dropping := true, g := s.g.Lose()) else s).(
                 attached := s.attached - {p}, ring := t.ring)
    case Activates(p) =>
      && t == s.(ring := t.ring)
      && if p !in s.ring.turn then Elements(t.ring.turn) == Elements(s.ring.turn) + {p}
         else exists q :: q in s.attached && q !in s.ring.turn && Elements(t.ring.turn) == Elements(s.ring.turn) + {q}
    case Sends(more) =>
      if s.dropping then t == s.(more := more, dropping := more, g := s.g.Skip(more))
      else (exists to :: to in s.m && Sent(s, to, more, t)) || Full(s, more, t) || Broken(s, more, t)
    case Polls =>
      && t == s.(ring := t.ring)
      && if s.more then t.ring == s.ring
         else WentRound(s.ring, t.ring, 0, t.ring.At(), true) || WentRound(s.ring, t.ring, -1, null, true)
  }

  // A pipe has taken the part; none had room; the one in the middle of the message had none, and
  // the message is lost.
  ghost predicate Sent(s: State, to: Pipe, more: bool, t: State)
    requires to in s.m
  {
    && WentRound(s.ring, t.ring, 0, to, more)
    && t == State(s.attached, t.ring, more, false, s.g.Put(to, more),
                  s.m[to := After(s.m[to], EMPTY.(more := more), s.g.At())])
  }

  ghost predicate Full(s: State, more: bool, t: State) {
    !s.more && WentRound(s.ring, t.ring, -1, null, more) && t == s.(ring := t.ring)
  }

  ghost predicate Broken(s: State, more: bool, t: State) {
    && s.more && t == State(s.attached, s.ring, false, more, s.g.Lose().Skip(more), t.m) && TakenBack(s.g, s.m, t.m)
  }

  // An event that is not permitted when its turn comes is skipped.
  ghost predicate Steps(s: State, e: Event, t: State) {
    if Permits(s, e) then Moves(s, e, t) else t == s
  }

  // What the books say: every message but the one under way is lost, with no part of it flushed
  // anywhere, or flushed on exactly one pipe, and whatever is flushed is whole.
  ghost predicate AllOrNothing(g: Book, m: map<Pipe, Log>) {
    && (forall p :: p in m ==> m[p].Ok() && Whole(m[p].out[..m[p].flushed], m[p].stamps[..m[p].flushed]))
    && (forall k, p, i :: k in g.lost && p in m && 0 <= i < m[p].flushed ==> m[p].stamps[i].msg != k)
    && (forall k :: 0 <= k < g.cur && k !in g.lost ==> Delivered(g, m, k))
    && (forall p, q, i, j :: p in m && q in m && 0 <= i < |m[p].stamps| && 0 <= j < |m[q].stamps| ==>
          (m[p].stamps[i].msg == m[q].stamps[j].msg ==> p == q))
  }

  lemma BooksBalance(g: Book, m: map<Pipe, Log>)
    requires Books(g, m)
    ensures AllOrNothing(g, m)
  {
    forall p, q, i, j |
        p in m && q in m && 0 <= i < |m[p].stamps| && 0 <= j < |m[q].stamps| && m[p].stamps[i].msg == m[q].stamps[j].msg
      ensures p == q
    {
      assert Tidy(g, p, m[p]) && Tidy(g, q, m[q]);
    }
  }

  // The pipe with the first parts of the message under way has taken them back.
  ghost predicate TakenBack(g: Book, m: map<Pipe, Log>, m': map<Pipe, Log>) {
    && g.cur in g.home && g.home[g.cur] in m && m[g.home[g.cur]].Ok()
    && m' == m[g.home[g.cur] := m[g.home[g.cur]].RolledBack()]
  }

  // The next position round the active pipes.
  function NextPlace(current: nat, active: nat): nat {
    if current + 1 < active then current + 1 else 0
  }

  ghost function Snap(all: set<Pipe>): map<Pipe, Log>
    reads all`out, all`flushed, all`stamps
  {
    map p | p in all :: Log(p.out, p.flushed, p.stamps)
  }

  class Lb {
    const pipes: Array
    var active: nat
    var current: nat
    var more: bool
    var dropping: bool
    ghost var book: Book

    ghost predicate Valid()
      reads this`active, this`current, pipes, pipes.Repr`arrayIndex
    {
      pipes.InTurn(active, current)
    }

    // An attached pipe has flushed all it has, unless it is busy.
    ghost predicate Drained()
      reads this`book, pipes`Repr, pipes.Repr`out, pipes.Repr`flushed, pipes.Repr`stamps
    {
      forall p :: p in pipes.Repr ==> p.Valid() && ((book.busy && book.Holder(p)) || p.flushed == |p.out|)
    }

    // What every step keeps; `all` are the pipes there are, attached or not.
    ghost predicate Atomic(all: set<Pipe>)
      reads this, pipes, pipes.Repr, all`out, all`flushed, all`stamps
    {
      && Valid() && pipes.Repr <= all && Drained() && Books(book, Snap(all)) && book.Ok()
      && book.busy == (more && !dropping) && (book.parts > 0 <==> more || dropping)
      && (book.busy ==> active > 0 && book.Holder(pipes.items[current]))
    }

    // No pipe has been written to.
    constructor (ghost all: set<Pipe>)
      requires forall p :: p in all ==> p.Valid() && p.out == []
      ensures Atomic(all) && pipes.items == [] && pipes.Repr == {} && fresh(pipes)
      ensures active == 0 && current == 0 && !more && !dropping
    {
      pipes := new Array();
      active, current, more, dropping := 0, 0, false, false;
      book := Book(0, 0, false, map[], {});
    }

    method Attach(p: Pipe, ghost all: set<Pipe>)
      requires Atomic(all) && p in all && p !in pipes.Repr && p.flushed == |p.out|
      modifies this`active, pipes, p`arrayIndex, pipes.Repr`arrayIndex
      ensures Atomic(all) && pipes.Repr == old(pipes.Repr) + {p} && |pipes.items| == |old(pipes.items)| + 1
      ensures active == old(active) + 1 && p.arrayIndex == old(active)
      ensures forall i :: 0 <= i < old(active) ==> pipes.items[i] == old(pipes.items[i])
    {
      hide Books, Book.Ok;
      BooksTidy(book, Snap(all), p);
      Place(p);
    }

    method Place(p: Pipe)
      requires pipes.Valid() && active <= |pipes.items| && p !in pipes.Repr
      modifies this`active, pipes, p`arrayIndex, pipes.Repr`arrayIndex
      ensures pipes.Valid() && pipes.Repr == old(pipes.Repr) + {p} && |pipes.items| == |old(pipes.items)| + 1
      ensures active == old(active) + 1 && p.arrayIndex == old(active)
      ensures forall i :: 0 <= i < old(active) ==> pipes.items[i] == old(pipes.items[i])
    {
      pipes.PushBack(p);
      Raise(p);
    }

    // The pipe is in the middle of a message.
    ghost predicate Occupied(p: Pipe)
      reads this, p
    {
      more && !dropping && p.arrayIndex == current
    }

    /**
      The pipe has room again.  It should not be active; but one that failed in the middle of a
      message still is.  Then the source swaps it with the first pipe that is not active, which
      becomes active, or, if all are, reaches beyond its array (`inRange` is false).  Whole
      messages stay whole if and only if the pipe is not in the middle of one.
     */
    method Activated(p: Pipe, ghost all: set<Pipe>) returns (inRange: bool)
      requires Atomic(all) && p in pipes.Repr
      modifies this`active, pipes`items, pipes.Repr`arrayIndex
      ensures inRange <==> old(active) < |old(pipes.items)|
      ensures !inRange ==> Atomic(all) && active == old(active) && pipes.items == old(pipes.items)
      ensures inRange ==> Valid() && active == old(active) + 1 && p.arrayIndex == old(active)
      ensures inRange ==> (pipes.First(active) == old(pipes.First(active)) + {p} <==> old(p.arrayIndex) >= old(active))
      ensures inRange && old(p.arrayIndex) < old(active) ==>
                pipes.First(active) == old(pipes.First(active)) + {old(pipes.items)[old(active)]}
      ensures inRange ==> (Atomic(all) <==> !(old(Occupied(p)) && old(p.arrayIndex) < old(active)))
    {
      hide Books;
      inRange := active < pipes.Size();
      if inRange {
        ghost var q := pipes.items[active];
        assert q in pipes.Repr && q !in pipes.First(active);
        Raise(p);
        assert old(p.arrayIndex) < old(active) ==> q in pipes.First(active);
      }
    }

    method Raise(p: Pipe)
      requires pipes.Valid() && p in pipes.Repr && active < |pipes.items|
      modifies this`active, pipes`items, pipes.Repr`arrayIndex
      ensures pipes.Valid() && active == old(active) + 1 && p.arrayIndex == old(active)
      ensures pipes.items == Swapped(old(pipes.items), old(p.arrayIndex), old(active))
    {
      pipes.Swap(pipes.Index(p), active);
      active := active + 1;
    }

    // The active pipes in their order, and the current one.
    ghost function Turn(): Ring
      requires Valid()
      reads this`active, this`current, pipes, pipes.Repr`arrayIndex
    {
      pipes.Turn(active, current)
    }

    // The pipe at `current` has no room: take it out of the active ones.
    method Deactivate(ghost all: set<Pipe>)
      requires Atomic(all) && active > 0 && !book.busy
      modifies this`active, this`current, pipes`items, pipes.Repr`arrayIndex
      ensures Atomic(all) && active == old(active) - 1 && Turn() == old(Turn()).Demoted()
      ensures pipes.First(active) == old(pipes.First(active)) - {old(pipes.items[current])}
    {
      hide Books;
      active, current := pipes.Demote(active, current);
    }

    /**
      When the current pipe stands last among the active ones and another one terminates, the
      current pipe takes that one's place, but `current` goes to 0.
     */
    ghost predicate Slips(p: Pipe)
      reads this, p
    {
      more && !dropping && current == active - 1 && 0 < p.arrayIndex < current
    }

    // A pipe goes away.  If it was in the middle of a message, the rest of that is dropped.  All
    // is well exactly unless the current pipe slips: then the rest goes to another pipe.
    method PipeTerminated(p: Pipe, ghost all: set<Pipe>)
      requires Atomic(all) && p in pipes.Repr
      modifies this, pipes, pipes.Repr`arrayIndex
      ensures Valid() && pipes.Repr == old(pipes.Repr) - {p}
      ensures pipes.First(active) == old(pipes.First(active)) - {p}
      ensures Atomic(all) <==> !old(Slips(p))
      ensures old(Slips(p)) ==> active > 0 && more && !dropping && pipes.items[current] != old(pipes.items[current])
      ensures old(Slips(p)) ==> current == 0 && pipes.items[0] == old(pipes.items[0])
      ensures if old(book.busy && book.Holder(p)) then dropping && more && book == old(book).Lose()
              else dropping == old(dropping) && more == old(more) && book == old(book)
    {
      hide Books;
      Interrupt(p, all);
      Retire(p);
    }

    method Retire(p: Pipe)
      requires Valid() && p in pipes.Repr
      modifies this`active, this`current, pipes, pipes.Repr`arrayIndex
      ensures Valid() && pipes.Repr == old(pipes.Repr) - {p}
      ensures pipes.First(active) == old(pipes.First(active)) - {p}
      ensures old(active) > 0 && p != old(pipes.items[current]) ==>
                && active > 0
                && (pipes.items[current] == old(pipes.items[current]) <==>
                    !(old(current) == old(active) - 1 && 0 < old(p.arrayIndex) < old(current)))
      ensures old(current == active - 1 && 0 < p.arrayIndex < current) ==>
                current == 0 && pipes.items[0] == old(pipes.items[0])
    {
      active, current := pipes.Retire(p, active, current);
    }

    method Interrupt(p: Pipe, ghost all: set<Pipe>)
      requires Atomic(all) && p in pipes.Repr
      modifies this`dropping, this`book
      ensures Books(book, Snap(all)) && book.Ok()
      ensures book.busy == (more && !dropping) && (book.parts > 0 <==> more || dropping)
      ensures if old(book.busy && book.Holder(p)) then dropping && more && book == old(book).Lose()
              else dropping == old(dropping) && book == old(book)
    {
      hide Books, Book.Ok;
      if pipes.Index(p) == current && more {
        dropping := true;
        if book.busy {
          Losing(book, Snap(all));
          book := book.Lose();
        }
      }
    }

    // A part of a message that has been given up.
    method Drop(msg: Msg, ghost h: int, ghost all: set<Pipe>)
      requires Atomic(all) && dropping && Counts(msg.b, h) && msg.b.kind != Closed
      modifies this`more, this`dropping, this`book, msg, msg.b.Held()
      ensures Atomic(all) && msg.b == EMPTY && Left(old(msg.b), h - 1)
      ensures more == dropping == old(msg.b).more && book == old(book).Skip(old(msg.b).more)
    {
      hide Books;
      Dropped(msg.b.more, all);
      var rc := msg.Close(h);
      assert rc == 0;
      msg.Init();
    }

    method Dropped(m: bool, ghost all: set<Pipe>)
      requires Atomic(all) && dropping
      modifies this`more, this`dropping, this`book
      ensures Atomic(all) && more == dropping == m && book == old(book).Skip(m)
    {
      hide Books;
      Skipping(book, Snap(all), m);
      more := m;
      dropping := more;
      book := book.Skip(m);
    }

    // Write one part to the current pipe; after the last one flush it and go on to the next.
    method Put(p: Pipe, b: Body, ghost all: set<Pipe>) returns (ok: bool)
      requires Atomic(all) && active > 0 && !dropping && p == pipes.items[current]
      modifies this`more, this`current, this`book, p`out, p`flushed, p`stamps, p`answers
      ensures Atomic(all)
      ensures !ok ==> more == old(more) && current == old(current) && book == old(book) && Snap(all) == old(Snap(all))
      ensures (old(p.Willing()) ==> ok) && (old(p.Unwilling()) ==> !ok)
      ensures ok ==> more == b.more && book == old(book).Put(p, more)
      ensures Turn() == if ok && !b.more then old(Turn()).Next() else old(Turn())
      ensures ok ==> Snap(all) == old(Snap(all))[p := After(old(Snap(all))[p], b, old(book).At())]
    {
      hide Books, After, Book.Put, Book.Ok;
      PutPart(book, Snap(all), p, b);
      ok := WriteTo(p, b, book.At(), all);
      if ok {
        book := book.Put(p, more);
        forall q | q in pipes.Repr ensures q.Valid() && ((book.busy && book.Holder(q)) || q.flushed == |q.out|) {
          if q != p { assert !(old(book).busy && old(book).Holder(q)); }
        }
      }
    }

    method WriteTo(p: Pipe, b: Body, ghost at: Stamp, ghost all: set<Pipe>) returns (ok: bool)
      requires Valid() && active > 0 && p in all && p.Valid()
      modifies this`more, this`current, p`out, p`flushed, p`stamps, p`answers
      ensures Valid() && p.Valid()
      ensures !ok ==> more == old(more) && current == old(current) && Snap(all) == old(Snap(all))
      ensures (old(p.Willing()) ==> ok) && (old(p.Unwilling()) ==> !ok)
      ensures ok ==> more == b.more && current == if b.more then old(current) else NextPlace(old(current), active)
      ensures ok ==> p.out == old(p.out) + [b] && p.flushed == if b.more then old(p.flushed) else |p.out|
      ensures ok ==> Snap(all) == old(Snap(all))[p := After(old(Snap(all))[p], b, at)]
    {
      ok := p.Write(b, at);
      if ok {
        Finish(p, b.more);
      }
    }

    method Finish(p: Pipe, m: bool)
      requires Valid() && active > 0 && p.Valid()
      modifies this`more, this`current, p`flushed
      ensures Valid() && p.Valid() && more == m && p.flushed == if m then old(p.flushed) else |p.out|
      ensures current == if m then old(current) else NextPlace(old(current), active)
    {
      more := m;
      if !more {
        p.Flush();
        current := current + 1;
        if current >= active {
          current := 0;
        }
      }
    }

    // The current pipe has failed in the middle of a message: take back what it has of it.
    method Abort(p: Pipe, m: bool, ghost all: set<Pipe>)
      requires Atomic(all) && book.busy && p == pipes.items[current]
      modifies this`more, this`dropping, this`book, p`out, p`stamps
      ensures Atomic(all) && dropping == m && !more && book == old(book).Lose().Skip(m)
      ensures old(Snap(all))[p].Ok() && Snap(all) == old(Snap(all))[p := old(Snap(all))[p].RolledBack()]
    {
      hide Books, Tidy, Book.Ok, Book.Lose, Book.Skip;
      Aborting(book, Snap(all), p, m);
      BooksTidy(book, Snap(all), p);
      RollBack(p, all);
      dropping := m;
      more := false;
      book := book.Lose().Skip(m);
      forall q | q in pipes.Repr ensures q.Valid() && q.flushed == |q.out| {
        if q != p { assert !old(book).Holder(q); }
      }
    }

    method RollBack(p: Pipe, ghost all: set<Pipe>)
      requires p.Valid() && p in all && forall i :: p.flushed <= i < |p.out| ==> p.out[i].more
      modifies p`out, p`stamps
      ensures p.Valid() && old(Snap(all))[p].Ok() && Snap(all) == old(Snap(all))[p := old(Snap(all))[p].RolledBack()]
      ensures p.flushed == |p.out|
    {
      p.Rollback();
    }

    /**
      0: the part was written, or dropped with the rest of its message.  -1: no pipe has room,
      and nothing has happened.  -2: the pipe that has the first parts failed; they were taken
      back, and this part counts as dropped.
     */
    method SendPipe(msg: Msg, ghost h: int, ghost all: set<Pipe>)
      returns (rc: int, to: Pipe?, ghost k: nat)
      requires Atomic(all) && Counts(msg.b, h) && msg.b.kind != Closed
      modifies this, pipes`items, pipes.Repr, msg, msg.b.Held()
      ensures Atomic(all) && pipes.Repr == old(pipes.Repr)
      ensures (rc == 0 || rc == -1 || rc == -2) && (rc != 0 ==> to == null)
      ensures old(dropping) <==> rc == 0 && to == null
      ensures old(dropping) ==> book == old(book).Skip(old(msg.b).more) && Snap(all) == old(Snap(all))
      ensures old(dropping) ==> Left(old(msg.b), h - 1)
      ensures rc == 0 && to != null ==> to in all && book == old(book).Put(to, old(msg.b).more)
      ensures rc == 0 && to != null ==> more == old(msg.b).more && !dropping
      ensures rc == 0 && to != null ==>
                Snap(all) == old(Snap(all))[to := After(old(Snap(all))[to], old(msg.b), old(book).At())]
      ensures rc == 0 ==> msg.b == EMPTY
      ensures rc == -1 ==> !old(book).busy && active == 0 && book == old(book)
      ensures rc == -1 ==> Snap(all) == old(Snap(all)) && msg.b == old(msg.b)
      ensures rc == -2 ==> old(book).busy && book == old(book).Lose().Skip(old(msg.b).more) && msg.b == old(msg.b)
      ensures rc == -2 ==> TakenBack(old(book), old(Snap(all)), Snap(all)) && dropping == old(msg.b).more && !more
      ensures rc == -1 ==> !more && !dropping
      ensures old(dropping) ==> more == dropping == old(msg.b).more
      ensures old(dropping) ==> Turn() == old(Turn())
      ensures !old(dropping) ==>
                Served(old(Turn()), old(Willing()), old(Unwilling()), Turn(), rc, to, k, old(msg.b).more)
      ensures old(book.busy && pipes.items[current].Unwilling()) ==> rc == -2
      ensures rc == -2 || k == 0 ==> pipes.items == old(pipes.items)
      ensures rc == -2 ==> active == old(active)
    {
      hide Books, TakenBack, After, Served;
      to := null;
      if dropping {
        Drop(msg, h, all);
        return 0, null, 0;
      }
      rc, to, k := Choose(msg.b, all);
      if rc == 0 {
        msg.Init();
      }
    }

    // Try the active pipes in turn.
    method Choose(b: Body, ghost all: set<Pipe>) returns (rc: int, to: Pipe?, ghost k: nat)
      requires Atomic(all) && !dropping
      modifies this, pipes`items, pipes.Repr
      ensures Atomic(all) && pipes.Repr == old(pipes.Repr)
      ensures rc == 0 || rc == -1 || rc == -2
      ensures rc == 0 <==> to != null
      ensures rc == 0 ==> to in all && book == old(book).Put(to, b.more) && more == b.more && !dropping
      ensures rc == 0 ==> Snap(all) == old(Snap(all))[to := After(old(Snap(all))[to], b, old(book).At())]
      ensures rc == -1 ==> !old(book).busy && active == 0 && book == old(book) && Snap(all) == old(Snap(all))
      ensures rc == -2 ==> old(book).busy && book == old(book).Lose().Skip(b.more)
      ensures rc == -2 ==> TakenBack(old(book), old(Snap(all)), Snap(all)) && dropping == b.more && !more
      ensures rc == -1 ==> !more && !dropping
      ensures Served(old(Turn()), old(Willing()), old(Unwilling()), Turn(), rc, to, k, b.more)
      ensures old(book.busy && pipes.items[current].Unwilling()) ==> rc == -2
      ensures rc == -2 || k == 0 ==> pipes.items == old(pipes.items)
      ensures rc == -2 ==> active == old(active)
    {
      hide Books, Trying, Served, After, TakenBack, Rounds, Candidate;
      ghost var r, yes, no := Turn(), Willing(), Unwilling();
      k := 0;
      TryingFirst();
      while active > 0
        invariant Atomic(all) && pipes.Repr == old(pipes.Repr) && !dropping
        invariant k == 0 ==> pipes.items == old(pipes.items)
        invariant book == old(book) && Snap(all) == old(Snap(all))
        invariant Trying(r, yes, no, k) && (more ==> k == 0) && (k == 0 ==> active == old(active))
        decreases active
      {
        var p := pipes.items[current];
        rc := TryOne(p, b, all, r, yes, no, k);
        if rc == 0 {
          return 0, p, k;
        }
        if rc == -2 {
          return -2, null, k;
        }
        k := k + 1;
      }
      TriedAll(r, yes, no, k, b.more);
      return -1, null, k;
    }

    // One round of the loop: 1 if the pipe has left and the next one is to be tried.
    method TryOne(p: Pipe, b: Body, ghost all: set<Pipe>,
                  ghost r: Ring, ghost yes: set<Pipe>, ghost no: set<Pipe>, ghost k: nat)
      returns (rc: int)
      requires Atomic(all) && active > 0 && !dropping && p == pipes.items[current]
      requires Trying(r, yes, no, k) && (more ==> k == 0)
      modifies this, pipes`items, pipes.Repr`arrayIndex, p`out, p`flushed, p`stamps, p`answers
      ensures Atomic(all) && (rc == 0 || rc == -2 || rc == 1) && (rc != 1 ==> pipes.items == old(pipes.items))
      ensures rc == 0 ==> book == old(book).Put(p, b.more) && Served(r, yes, no, Turn(), 0, p, k, b.more)
      ensures rc == 0 ==> more == b.more && !dropping
      ensures rc == 0 ==> Snap(all) == old(Snap(all))[p := After(old(Snap(all))[p], b, old(book).At())]
      ensures rc == -2 ==> old(book).busy && book == old(book).Lose().Skip(b.more) && k == 0 && active == old(active)
      ensures rc == -2 ==> TakenBack(old(book), old(Snap(all)), Snap(all)) && dropping == b.more && !more
      ensures rc == -2 ==> Served(r, yes, no, Turn(), -2, null, 0, b.more)
      ensures old(book.busy) && p in no ==> rc == -2
      ensures rc == 1 ==> active == old(active) - 1 && Trying(r, yes, no, k + 1) && !more && !dropping
      ensures rc == 1 ==> book == old(book) && !book.busy && Snap(all) == old(Snap(all))
    {
      hide Books, Trying, Served, After, Rounds, Candidate;
      TryingNow(r, yes, no, k);
      var ok := TryPut(p, b, all, r, yes, no, k);
      if ok {
        Chosen(r, yes, no, Turn(), k, p, b.more);
        return 0;
      }
      if more {
        Abort(p, b.more, all);
        Stopped(r, yes, no, Turn(), p, b.more);
        return -2;
      }
      PassOn(p, all, r, yes, no, k);
      return 1;
    }

    // Of the attached pipes, those whose next write will succeed, and those whose next one will not.
    ghost function Willing(): set<Pipe>
      reads pipes`Repr, pipes.Repr`answers
    {
      set p | p in pipes.Repr && p.Willing()
    }

    ghost function Unwilling(): set<Pipe>
      reads pipes`Repr, pipes.Repr`answers
    {
      set p | p in pipes.Repr && p.Unwilling()
    }

    // `k` pipes have been tried in turn and have left; the others answer as they would have.
    ghost predicate Trying(r: Ring, yes: set<Pipe>, no: set<Pipe>, k: nat)
      reads this`active, this`current, pipes, pipes.Repr`arrayIndex, pipes.Repr`answers
    {
      && Valid() && r.Ok() && k <= |r.turn| && Turn() == Rounds(r, k)
      && (forall j :: 0 <= j < k ==> Candidate(r, j) !in yes)
      && (forall p :: p in pipes.First(active) ==> (p in yes <==> p.Willing()) && (p in no <==> p.Unwilling()))
    }

    lemma TryingNow(r: Ring, yes: set<Pipe>, no: set<Pipe>, k: nat)
      requires Trying(r, yes, no, k) && active > 0
      ensures var p := pipes.items[current];
              && r.Ok() && k < |r.turn| && p == Candidate(r, k) && p in pipes.First(active)
              && (p in yes <==> p.Willing()) && (p in no <==> p.Unwilling())
      ensures Turn() == Rounds(r, k) && forall j :: 0 <= j < k ==> Candidate(r, j) !in yes
    {
      assert pipes.items[..active][current] == pipes.items[current];
    }

    // The same when the current pipe `p` has just been tried and had no room.
    ghost predicate Failed(p: Pipe, r: Ring, yes: set<Pipe>, no: set<Pipe>, k: nat)
      reads this`active, this`current, pipes, pipes.Repr`arrayIndex, pipes.Repr`answers
    {
      && Valid() && r.Ok() && k < |r.turn| && Turn() == Rounds(r, k) && p == Candidate(r, k) && p !in yes
      && (forall j :: 0 <= j < k ==> Candidate(r, j) !in yes)
      && forall q :: q in pipes.First(active) && q != p ==> (q in yes <==> q.Willing()) && (q in no <==> q.Unwilling())
    }

    lemma TryingFirst()
      requires Valid()
      ensures Trying(Turn(), Willing(), Unwilling(), 0)
    {
    }

    method TryPut(p: Pipe, b: Body, ghost all: set<Pipe>,
                  ghost r: Ring, ghost yes: set<Pipe>, ghost no: set<Pipe>, ghost k: nat)
      returns (ok: bool)
      requires Atomic(all) && active > 0 && !dropping && p == pipes.items[current] && Trying(r, yes, no, k)
      modifies this`more, this`current, this`book, p`out, p`flushed, p`stamps, p`answers
      ensures Atomic(all) && (p in yes ==> ok) && (p in no ==> !ok)
      ensures !ok ==> more == old(more) && current == old(current) && book == old(book) && Snap(all) == old(Snap(all))
      ensures !ok ==> Failed(p, r, yes, no, k)
      ensures ok ==> more == b.more && book == old(book).Put(p, more)
      ensures ok ==> Snap(all) == old(Snap(all))[p := After(old(Snap(all))[p], b, old(book).At())]
      ensures Turn() == if ok && !b.more then old(Turn()).Next() else old(Turn())
    {
      hide Books, After, Rounds, Candidate;
      TryingNow(r, yes, no, k);
      ok := Put(p, b, all);
    }

    method TryRoom(p: Pipe, ghost all: set<Pipe>,
                   ghost r: Ring, ghost yes: set<Pipe>, ghost no: set<Pipe>, ghost k: nat)
      returns (ok: bool)
      requires Atomic(all) && active > 0 && p == pipes.items[current] && Trying(r, yes, no, k)
      modifies p`answers
      ensures Atomic(all) && (p in yes ==> ok) && (p in no ==> !ok) && Turn() == old(Turn())
      ensures !ok ==> Failed(p, r, yes, no, k)
    {
      hide Books, Rounds, Candidate;
      TryingNow(r, yes, no, k);
      ok := p.CheckWrite();
    }

    method PassOn(p: Pipe, ghost all: set<Pipe>, ghost r: Ring, ghost yes: set<Pipe>, ghost no: set<Pipe>, ghost k: nat)
      requires Atomic(all) && active > 0 && !book.busy && p == pipes.items[current] && Failed(p, r, yes, no, k)
      modifies this`active, this`current, pipes`items, pipes.Repr`arrayIndex
      ensures Atomic(all) && active == old(active) - 1 && Trying(r, yes, no, k + 1)
    {
      hide Books, Rounds, Candidate;
      RoundsStep(r, k);
      Deactivate(all);
    }

    lemma TriedAll(r: Ring, yes: set<Pipe>, no: set<Pipe>, k: nat, m: bool)
      requires Trying(r, yes, no, k) && active == 0
      ensures Served(r, yes, no, Turn(), -1, null, k, m)
    {
      forall p | p in r.turn ensures p !in yes {
        RoundsTried(r, k, p);
      }
    }

    // Mid-message there is always room; otherwise the active pipes are asked in turn.
    method HasOut(ghost all: set<Pipe>) returns (r: bool, ghost k: nat)
      requires Atomic(all)
      modifies this`active, this`current, pipes`items, pipes.Repr`arrayIndex, pipes.Repr`answers
      ensures Atomic(all) && pipes.Repr == old(pipes.Repr) && (r <==> more || active > 0)
      ensures more ==> Turn() == old(Turn())
      ensures !more ==> Served(old(Turn()), old(Willing()), old(Unwilling()), Turn(), if r then 0 else -1,
                               if r then pipes.items[current] else null, k, true)
    {
      hide Books, Trying, Served, Rounds, Candidate;
      k := 0;
      if more {
        return true, 0;
      }
      ghost var g, yes, no := Turn(), Willing(), Unwilling();
      TryingFirst();
      while active > 0
        invariant Atomic(all) && pipes.Repr == old(pipes.Repr) && Trying(g, yes, no, k)
        decreases active
      {
        TryingNow(g, yes, no, k);
        var p := pipes.items[current];
        var room := TryRoom(p, all, g, yes, no, k);
        if room {
          Chosen(g, yes, no, Turn(), k, p, true);
          return true, k;
        }
        PassOn(p, all, g, yes, no, k);
        k := k + 1;
      }
      TriedAll(g, yes, no, k, true);
      return false, k;
    }

    // ------------------------------------------------------------ runs

    ghost function Now(all: set<Pipe>): State
      requires Valid()
      reads this, pipes, pipes.Repr`arrayIndex, all`out, all`flushed, all`stamps
    {
      State(pipes.Repr, Turn(), more, dropping, book, Snap(all))
    }

    // Position and turn of a pipe agree.
    lemma Places(p: Pipe)
      requires Valid() && p in pipes.Repr
      ensures p in Turn().turn <==> p.arrayIndex < active
      ensures Elements(Turn().turn) == pipes.First(active) <= pipes.Repr
      ensures pipes.Repr == Elements(Turn().turn) <==> active == |pipes.items|
    {
      assert p in Turn().turn ==> exists i :: 0 <= i < active && pipes.items[i] == p;
      assert p.arrayIndex < active ==> Turn().turn[p.arrayIndex] == p;
      if active < |pipes.items| { assert pipes.items[active] in pipes.Repr; }
    }

    method Step(e: Event, ghost all: set<Pipe>)
      requires Atomic(all) && Permits(Now(all), e) && (e.OnPipe() ==> e.p in all)
      modifies this, pipes, all
      ensures Atomic(all) && Moves(old(Now(all)), e, Now(all))
      ensures old(book).lost <= book.lost && old(book).cur <= book.cur
    {
      hide Books;
      match e
      case Attaches(p) => Enter(p, all);
      case Terminates(p) => Quit(p, all);
      case Activates(p) => Wake(p, all);
      case Sends(m) => Send(m, all);
      case Polls => Poll(all);
    }

    method Enter(p: Pipe, ghost all: set<Pipe>)
      requires Atomic(all) && Permits(Now(all), Attaches(p)) && p in all
      modifies this`active, pipes, p`arrayIndex, pipes.Repr`arrayIndex
      ensures Atomic(all) && Moves(old(Now(all)), Attaches(p), Now(all)) && book == old(book)
    {
      hide Books;
      Attach(p, all);
      assert Turn().turn == old(Turn().turn) + [p];
    }

    // The state says whether a pipe is busy, and whether the current one slips.
    lemma Agrees(p: Pipe, all: set<Pipe>)
      requires Atomic(all) && p in pipes.Repr
      ensures Now(all).Occupied(p) <==> book.busy && book.Holder(p)
      ensures Now(all).Slips(p) <==> Slips(p)
      ensures book.busy ==> active > 0 && book.Holder(pipes.items[current]) && Turn().At() == pipes.items[current]
    {
      hide Books;
      var turn := Turn().turn;
      if Slips(p) { assert turn[1..current][p.arrayIndex - 1] == p; }
    }

    method Quit(p: Pipe, ghost all: set<Pipe>)
      requires Atomic(all) && Permits(Now(all), Terminates(p))
      modifies this, pipes, pipes.Repr`arrayIndex
      ensures Atomic(all) && Moves(old(Now(all)), Terminates(p), Now(all))
      ensures old(book).lost <= book.lost && old(book).cur <= book.cur
    {
      hide Books;
      Agrees(p, all);
      Actives();
      PipeTerminated(p, all);
      Actives();
    }

    lemma Actives()
      requires Valid()
      ensures Elements(Turn().turn) == pipes.First(active)
    {
      forall p ensures p in Turn().turn <==> p in pipes.First(active) {
        if p in pipes.First(active) { assert Turn().turn[p.arrayIndex] == p; }
      }
    }

    method Wake(p: Pipe, ghost all: set<Pipe>)
      requires Atomic(all) && Permits(Now(all), Activates(p))
      modifies this`active, pipes`items, pipes.Repr`arrayIndex
      ensures Atomic(all) && Moves(old(Now(all)), Activates(p), Now(all)) && book == old(book)
    {
      hide Books;
      Places(p);
      var inRange := Activated(p, all);
      Places(p);
    }

    method Send(m: bool, ghost all: set<Pipe>)
      requires Atomic(all)
      modifies this, pipes`items, pipes.Repr
      ensures Atomic(all) && Moves(old(Now(all)), Sends(m), Now(all))
      ensures old(book).lost <= book.lost && old(book).cur <= book.cur
    {
      hide Books, Served, TakenBack, After, WentRound;
      if dropping {
        DropNew(m, all);
        return;
      }
      ghost var s, yes, no := Now(all), Willing(), Unwilling();
      var rc, to, k := SendNew(m, all);
      ghost var t := Now(all);
      ServedRound(s.ring, yes, no, t.ring, rc, to, k, m);
      assert if rc == 0 then Sent(s, to, m, t) else if rc == -1 then Full(s, m, t) else Broken(s, m, t);
    }

    method DropNew(m: bool, ghost all: set<Pipe>)
      requires Atomic(all) && dropping
      modifies this, pipes`items, pipes.Repr
      ensures Atomic(all) && more == dropping == m && book == old(book).Skip(m) && pipes.Repr == old(pipes.Repr)
      ensures Turn() == old(Turn()) && Snap(all) == old(Snap(all))
    {
      hide Books, Served, TakenBack, After;
      var msg := new Msg();
      msg.b := EMPTY.(more := m);
      var rc, to, k := SendPipe(msg, 0, all);
    }

    method Poll(ghost all: set<Pipe>)
      requires Atomic(all)
      modifies this`active, this`current, pipes`items, pipes.Repr`arrayIndex, pipes.Repr`answers
      ensures Atomic(all) && Moves(old(Now(all)), Polls, Now(all)) && book == old(book)
    {
      hide Books, Served, WentRound;
      ghost var s, yes, no := Turn(), Willing(), Unwilling();
      var r, k := HasOut(all);
      if !more { ServedRound(s, yes, no, Turn(), if r then 0 else -1, Turn().At(), k, true); }
    }

    /**
      Whatever is attached, activated, terminated and sent, and whichever writes fail: the run is
      one of the machine above, and after every event each message but the one under way is lost,
      with no part of it flushed, or flushed whole on one pipe.
     */
    method Run(es: seq<Event>, ghost all: set<Pipe>) returns (ghost path: seq<State>)
      requires Atomic(all) && forall i :: 0 <= i < |es| && es[i].OnPipe() ==> es[i].p in all
      modifies this, pipes, all
      ensures Atomic(all) && IsRun(Steps, path, es) && path[0] == old(Now(all)) && path[|es|] == Now(all)
      ensures forall i :: 0 <= i <= |es| ==> AllOrNothing(path[i].g, path[i].m) && old(book).lost <= path[i].g.lost
    {
      hide Books, IsRun, Moves, Permits, AllOrNothing;
      path := [Now(all)];
      RunNone(Steps, Now(all), es);
      BooksBalance(book, Snap(all));
      for i := 0 to |es|
        invariant |path| == i + 1 && IsRun(Steps, path, es[..i]) && path[0] == old(Now(all))
        invariant Atomic(all) && path[i] == Now(all) && old(book).lost <= book.lost
        invariant forall k :: 0 <= k <= i ==> AllOrNothing(path[k].g, path[k].m) && old(book).lost <= path[k].g.lost
      {
        var ok := Permitted(es[i], all);
        if ok {
          Step(es[i], all);
        }
        BooksBalance(book, Snap(all));
        RunOn(Steps, path, es, i, Now(all));
        path := path + [Now(all)];
      }
      assert es[..|es|] == es;
    }

    method Permitted(e: Event, ghost all: set<Pipe>) returns (r: bool)
      requires Atomic(all) && (e.OnPipe() ==> e.p in all)
      ensures r == Permits(Now(all), e)
    {
      hide Books;
      if e.OnPipe() && e.p in pipes.Repr {
        Places(e.p);
        Agrees(e.p, all);
      }
      match e
      case Attaches(p) => r := !pipes.Has(p) && p.flushed == |p.out|;
      case Terminates(p) =>
        r := pipes.Has(p) && !(more && !dropping && current == active - 1 && 0 < pipes.Index(p) < current);
      case Activates(p) =>
        r := pipes.Has(p) && active < pipes.Size() && !(more && !dropping && pipes.Index(p) == current);
      case Sends(_) => r := true;
      case Polls => r := true;
    }

    /**
      After the current pipe has slipped, the rest of the message goes to the first pipe: once
      its last part is there and flushed, what that pipe has flushed is not whole messages.
     */
    method Tear(p: Pipe, b: Body, ghost all: set<Pipe>) returns (to: Pipe, ok: bool)
      requires Atomic(all) && p in pipes.Repr && Slips(p) && !b.more
      modifies this, pipes, pipes.Repr
      ensures to == old(pipes.items[0]) && to != old(pipes.items[current]) && (old(pipes.items[0].Willing()) ==> ok)
      ensures ok ==> to.flushed == |to.out| == |to.stamps| && !Whole(to.out, to.stamps)
    {
      hide Books, Whole;
      assert Tidy(book, pipes.items[0], Snap(all)[pipes.items[0]]) by { BooksTidy(book, Snap(all), pipes.items[0]); }
      PipeTerminated(p, all);
      to := pipes.items[current];
      ghost var l := Log(to.out, to.flushed, to.stamps);
      TornLast(book, to, l, b);
      ok := WriteTo(to, b, Stamp(book.cur, book.parts), all);
    }

    // That happens: three pipes, the third in the middle of the third message, the second goes.
    static method Torn() returns (to: Pipe)
      ensures to.flushed == |to.out| == |to.stamps| && !Whole(to.out, to.stamps)
    {
      hide Books, Whole;
      var lb, a, b, all := Slipping();
      a.answers := [true];
      var ok;
      to, ok := lb.Tear(b, EMPTY, all);
    }

    static method Slipping() returns (lb: Lb, a: Pipe, b: Pipe, ghost all: set<Pipe>)
      ensures fresh(lb) && fresh(lb.pipes) && fresh(lb.pipes.Repr) && lb.Atomic(all) && {a, b} <= lb.pipes.Repr
      ensures lb.Slips(b) && lb.pipes.items[0] == a
    {
      hide Books;
      var c;
      lb, a, b, c, all := Three();
      lb.SendTo(false, all);
      lb.SendTo(false, all);
      lb.SendTo(true, all);
      assert lb.pipes.items[1] == b;
    }

    static method Three() returns (lb: Lb, a: Pipe, b: Pipe, c: Pipe, ghost all: set<Pipe>)
      ensures fresh(lb) && fresh(lb.pipes) && fresh(lb.pipes.Repr) && lb.Atomic(all)
      ensures lb.pipes.Repr == {a, b, c} && lb.pipes.items == [a, b, c]
      ensures lb.active == 3 && lb.current == 0 && !lb.more && !lb.dropping
    {
      hide Lb.Atomic;
      a := new Pipe([], []);
      b := new Pipe([], []);
      c := new Pipe([], []);
      all := {a, b, c};
      lb := new Lb(all);
      lb.AttachThree(a, b, c, all);
    }

    method AttachThree(a: Pipe, b: Pipe, c: Pipe, ghost all: set<Pipe>)
      requires Atomic(all) && {a, b, c} <= all && a != b && b != c && c != a
      requires pipes.Repr == {} && pipes.items == [] && active == 0
      requires forall p :: p in all ==> p.flushed == |p.out|
      modifies this`active, pipes, all`arrayIndex
      ensures Atomic(all) && pipes.Repr == {a, b, c} && pipes.items == [a, b, c] && active == 3
    {
      hide Books;
      Attach(a, all);
      Attach(b, all);
      Attach(c, all);
    }

    // One part, to the current pipe, which has room.
    method SendTo(m: bool, ghost all: set<Pipe>)
      requires Atomic(all) && active > 0 && !dropping
      modifies this, pipes`items, pipes.Repr
      ensures Atomic(all) && pipes.Repr == old(pipes.Repr) && pipes.items == old(pipes.items) && active == old(active)
      ensures more == m && !dropping && current == if m then old(current) else NextPlace(old(current), active)
    {
      hide Books, Served;
      var p := pipes.items[current];
      p.answers := [true];
      ghost var r, yes, no := Turn(), Willing(), Unwilling();
      assert r.turn[r.current] == p && p in yes;
      var rc, to, k := SendNew(m, all);
      FirstWilling(r, yes, no, Turn(), rc, to, k, m);
    }

    method SendNew(m: bool, ghost all: set<Pipe>) returns (rc: int, to: Pipe?, ghost k: nat)
      requires Atomic(all) && !dropping
      modifies this, pipes`items, pipes.Repr
      ensures Atomic(all) && pipes.Repr == old(pipes.Repr) && (rc == 0 || rc == -1 || rc == -2)
      ensures if rc == 0 then to != null && to in all && book == old(book).Put(to, m) else to == null
      ensures rc == 0 ==>
                Snap(all) == old(Snap(all))[to := After(old(Snap(all))[to], EMPTY.(more := m), old(book).At())]
      ensures rc == -1 ==> !more && !dropping && book == old(book) && Snap(all) == old(Snap(all))
      ensures rc == -2 ==> old(book).busy && book == old(book).Lose().Skip(m) && dropping == m && !more
      ensures rc == -2 ==> TakenBack(old(book), old(Snap(all)), Snap(all))
      ensures Served(old(Turn()), old(Willing()), old(Unwilling()), Turn(), rc, to, k, m)
      ensures old(book.busy && pipes.items[current].Unwilling()) ==> rc == -2
      ensures rc == -2 || k == 0 ==> pipes.items == old(pipes.items)
      ensures rc == -2 ==> active == old(active)
      ensures rc == 0 ==> more == m && !dropping
    {
      hide Books, Book.Ok, Lb.Drained, Served, TakenBack, After, Lb.Willing, Lb.Unwilling;
      var msg := new Msg();
      msg.b := EMPTY.(more := m);
      rc, to, k := SendPipe(msg, 0, all);
    }

    // A pipe fails in the middle of a message, and is then activated: beyond the array.
    static method Stuck() returns (p: Pipe, rc: int, inRange: bool)
      ensures rc == -2 && !inRange
    {
      hide Books, Served;
      var lb: Lb;
      ghost var all: set<Pipe>;
      lb, p, all := OneBusy();
      p.answers := [false];
      var to;
      ghost var k;
      rc, to, k := lb.SendNew(false, all);
      inRange := lb.Activated(p, all);
    }

    static method OneBusy() returns (lb: Lb, p: Pipe, ghost all: set<Pipe>)
      ensures fresh(lb) && fresh(lb.pipes) && fresh(lb.pipes.Repr) && lb.Atomic(all) && lb.pipes.items == [p]
      ensures lb.active == 1 && lb.more && !lb.dropping
    {
      hide Books;
      p := new Pipe([], []);
      all := {p};
      lb := new Lb(all);
      lb.Attach(p, all);
      lb.SendTo(true, all);
    }
  }
}
