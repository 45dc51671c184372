/**
  The incremental decoder (zmq::decoder_base_t, ExternalLib/libzmq/src/decoder.hpp) over any step
  machine, and the engine's loop around it (ExternalLib/libzmq/src/stream_engine_base.cpp:275-312).
 */
module Decoder {
  import opened Wire

  // What a step returns: 0 to go on, 1 with a decoded message, -1 for an error; in each case
  // it has asked for `want` more bytes (next_step).
  datatype Reply<S, M> =
    | Continue(s: S, want: nat)
    | Ready(s: S, want: nat, msg: M)
    | Fail(s: S, want: nat)

  // `step` is called with the bytes that were asked for.  `rank` bounds the runs of steps that
  // ask for nothing.
  datatype Machine<!S, !M> = Machine(step: (S, seq<Byte>) -> Reply<S, M>, rank: S -> nat)

  ghost predicate Finite<S(!new), M>(m: Machine<S, M>) {
    forall s: S :: var r := m.step(s, []); !r.Fail? && r.want == 0 ==> m.rank(r.s) < m.rank(s)
  }

  // The state of the machine, what has been read since the last step, and what is still to read.
  datatype Config<S> = Config(s: S, have: seq<Byte>, want: nat) {
    function Absorb(d: seq<Byte>): Config<S>
      requires |d| <= want
    {
      Config(s, have + d, want - |d|)
    }
  }

  datatype Signal<M> = Hungry | Got(msg: M) | Err

  datatype Settled<S, M> = Settled(c: Config<S>, signal: Signal<M>)

  // Take steps until one wants bytes, has a message or fails.
  ghost function Settle<S(!new), M>(m: Machine<S, M>, c: Config<S>): (r: Settled<S, M>)
    requires Finite(m) && c.want == 0
    ensures r.c.have == [] && (r.signal.Hungry? ==> r.c.want > 0)
    ensures c.have == [] && r.c.want == 0 && !r.signal.Err? ==> m.rank(r.c.s) < m.rank(c.s)
    decreases if c.have == [] then 0 else 1, m.rank(c.s)
  {
    var r := m.step(c.s, c.have);
    var c' := Config(r.s, [], r.want);
    match r
    case Fail(_, _) => Settled(c', Err)
    case Ready(_, _, msg) => Settled(c', Got(msg))
    case Continue(_, want) => if want == 0 then Settle(m, c') else Settled(c', Hungry)
  }

  // What came of some input: where the machine stands, the messages, whether it failed, and how
  // many bytes were used.
  datatype Outcome<S, M> = Outcome(c: Config<S>, msgs: seq<M>, failed: bool, used: nat) {
    function Plus(n: nat): Outcome<S, M> {
      this.(used := used + n)
    }

    // This after messages `ms` and `n` bytes.
    function Behind(ms: seq<M>, n: nat): Outcome<S, M> {
      this.(msgs := ms + msgs, used := n + used)
    }
  }

  // The machine fed byte by byte.  Steps that want nothing wait, after a message, for the next
  // byte to come.
  ghost function Feed<S(!new), M>(m: Machine<S, M>, c: Config<S>, data: seq<Byte>): Outcome<S, M>
    requires Finite(m) && (c.want == 0 ==> c.have == [])
    decreases |data|, if c.want == 0 then m.rank(c.s) + 1 else 0, 0
  {
    if data == [] then Outcome(c, [], false, 0)
    else if c.want == 0 then Resume(m, Settle(m, c), data)
    else
      var c' := c.Absorb([data[0]]);
      (if c'.want == 0 then Resume(m, Settle(m, c'), data[1..]) else Feed(m, c', data[1..])).Plus(1)
  }

  ghost function Resume<S(!new), M>(m: Machine<S, M>, r: Settled<S, M>, data: seq<Byte>): Outcome<S, M>
    requires Finite(m) && r.c.have == []
    decreases |data|, if r.c.want == 0 && !r.signal.Err? then m.rank(r.c.s) + 1 else 0, 1
  {
    match r.signal
    case Err => Outcome(r.c, [], true, 0)
    case Got(msg) => Feed(m, r.c, data).Behind([msg], 0)
    case Hungry => Feed(m, r.c, data)
  }

  lemma FeedNothing<S(!new), M>(m: Machine<S, M>, c: Config<S>)
    requires Finite(m) && (c.want == 0 ==> c.have == [])
    ensures Feed(m, c, []) == Outcome(c, [], false, 0)
  {
  }

  lemma BehindBehind<S, M>(o: Outcome<S, M>, ms: seq<M>, n: nat, ms': seq<M>, n': nat)
    ensures o.Behind(ms', n').Behind(ms, n) == o.Behind(ms + ms', n + n')
  {
    assert ms + (ms' + o.msgs) == ms + ms' + o.msgs;
  }

  // Bytes may be copied in bulk, up to what the machine wants.
  lemma {:induction false} FeedBulk<S(!new), M>(m: Machine<S, M>, c: Config<S>, d: seq<Byte>, k: nat)
    requires Finite(m) && 0 < k <= c.want && k <= |d|
    ensures var c' := c.Absorb(d[..k]);
            Feed(m, c, d) == (if c'.want == 0 then Resume(m, Settle(m, c'), d[k..]) else Feed(m, c', d[k..])).Plus(k)
    decreases k
  {
    hide Settle, Resume, Finite;
    var c1, c' := c.Absorb([d[0]]), c.Absorb(d[..k]);
    if k == 1 {
      assert d[..1] == [d[0]];
    } else {
      FeedBulk(m, c1, d[1..], k - 1);
      assert d[1..][..k - 1] == d[1..k] && d[1..][k - 1..] == d[k..];
      assert c1.Absorb(d[1..k]) == c' by { assert c.have + [d[0]] + d[1..k] == c.have + d[..k]; }
    }
  }

  // How a stream is cut does not matter.
  lemma {:induction false} FeedConcat<S(!new), M>(m: Machine<S, M>, c: Config<S>, a: seq<Byte>, b: seq<Byte>)
    requires Finite(m) && (c.want == 0 ==> c.have == [])
    ensures var o := Feed(m, c, a);
            && (o.failed || (o.used == |a| && (o.c.want == 0 ==> o.c.have == [])))
            && Feed(m, c, a + b) == if o.failed then o else Feed(m, o.c, b).Behind(o.msgs, o.used)
    decreases |a|, if c.want == 0 then m.rank(c.s) + 1 else 0, 0
  {
    if a == [] {
      assert a + b == b;
    } else if c.want == 0 {
      ResumeConcat(m, Settle(m, c), a, b);
    } else {
      var c' := c.Absorb([a[0]]);
      assert (a + b)[1..] == a[1..] + b;
      if c'.want == 0 { ResumeConcat(m, Settle(m, c'), a[1..], b); } else { FeedConcat(m, c', a[1..], b); }
    }
  }

  lemma {:induction false} ResumeConcat<S(!new), M>(m: Machine<S, M>, r: Settled<S, M>, a: seq<Byte>, b: seq<Byte>)
    requires Finite(m) && r.c.have == []
    ensures var o := Resume(m, r, a);
            && (o.failed || (o.used == |a| && (o.c.want == 0 ==> o.c.have == [])))
            && Resume(m, r, a + b) == if o.failed then o else Feed(m, o.c, b).Behind(o.msgs, o.used)
    decreases |a|, if r.c.want == 0 && !r.signal.Err? then m.rank(r.c.s) + 1 else 0, 1
  {
    if !r.signal.Err? {
      FeedConcat(m, r.c, a, b);
    }
  }

  class Decoder<S(!new), M(0)> {
    const m: Machine<S, M>
    var s: S
    // The bytes at the place `_read_pos` started from, and how many are still to come.
    var have: seq<Byte>
    var toRead: nat

    ghost predicate Valid()
      reads this
    {
      Finite(m) && (toRead == 0 ==> have == [])
    }

    ghost function At(): Config<S>
      reads this
    {
      Config(s, have, toRead)
    }

    constructor (m: Machine<S, M>, s: S, want: nat)
      requires Finite(m)
      ensures Valid() && this.m == m && At() == Config(s, [], want)
    {
      this.m, this.s, this.have, this.toRead := m, s, [], want;
    }

    // A large rest of a message is to be read straight to its place.
    method GetBuffer(size: nat) returns (zeroCopy: bool, room: nat)
      ensures zeroCopy == (toRead >= size) && room == if zeroCopy then toRead else size
    {
      if toRead >= size {
        return true, toRead;
      }
      return false, size;
    }

    // The inner loop: take steps while nothing is to be read.
    method Steps() returns (signal: Signal<M>)
      requires Finite(m) && toRead == 0
      modifies this
      ensures Valid() && Settled(At(), signal) == Settle(m, old(At()))
    {
      while toRead == 0
        invariant toRead > 0 ==> have == [] && Settle(m, old(At())) == Settled(At(), Hungry)
        invariant toRead == 0 ==> Settle(m, old(At())) == Settle(m, At())
        decreases if toRead == 0 then 1 else 0, if have == [] then 0 else 1, m.rank(s)
      {
        var r := m.step(s, have);
        s, have, toRead := r.s, [], r.want;
        match r
        case Fail(_, _) => return Err;
        case Ready(_, _, msg) => return Got(msg);
        case Continue(_, _) =>
      }
      return Hungry;
    }

    /**
      One call.  `zeroCopy` says that the data are in their place already.  Either all of it is
      used (0), or it stops behind a message (1) and the rest is still to be decoded, or it has
      failed (-1).
     */
    method Decode(data: seq<Byte>, zeroCopy: bool) returns (signal: Signal<M>, used: nat)
      requires Valid() && (zeroCopy ==> 0 < |data| <= toRead)
      modifies this
      ensures Valid() && used <= |data|
      ensures used == 0 && signal.Got? ==> old(toRead) == 0 && (toRead > 0 || m.rank(s) < m.rank(old(s)))
      ensures match signal
              case Hungry => used == |data| && Feed(m, old(At()), data) == Outcome(At(), [], false, used)
              case Got(msg) => Feed(m, old(At()), data) == Feed(m, At(), data[used..]).Behind([msg], used)
              case Err => Feed(m, old(At()), data) == Outcome(At(), [], true, used)
    {
      hide Feed, Finite;
      if zeroCopy {
        assert data[|data|..] == [];
        signal := Fill(data, |data|);
        if signal.Hungry? { FeedNothing(m, At()); }
        return signal, |data|;
      }
      used := 0;
      while used < |data|
        invariant used <= |data| && Valid() && (used == 0 ==> At() == old(At()) || (toRead > 0 && old(toRead) == 0))
        invariant Feed(m, old(At()), data) == Feed(m, At(), data[used..]).Plus(used)
        decreases |data| - used, if toRead == 0 then 1 else 0
      {
        var k := if toRead <= |data| - used then toRead else |data| - used;
        assert data[used..][k..] == data[used + k..];
        signal := Fill(data[used..], k);
        used := used + k;
        if signal != Hungry {
          return;
        }
      }
      assert data[used..] == [];
      FeedNothing(m, At());
      return Hungry, used;
    }

    // `k` bytes reach their place; when it is full, steps are taken.
    method Fill(d: seq<Byte>, k: nat) returns (signal: Signal<M>)
      requires Valid() && d != [] && k <= toRead && k <= |d| && (k == 0 ==> toRead == 0)
      modifies this
      ensures Valid() && (k == 0 && signal.Hungry? ==> toRead > 0)
      ensures k == 0 && signal.Got? ==> toRead > 0 || m.rank(s) < m.rank(old(s))
      ensures match signal
              case Hungry => Feed(m, old(At()), d) == Feed(m, At(), d[k..]).Plus(k)
              case Got(msg) => Feed(m, old(At()), d) == Feed(m, At(), d[k..]).Behind([msg], k)
              case Err => Feed(m, old(At()), d) == Outcome(At(), [], true, k)
    {
      if k > 0 {
        FeedBulk(m, At(), d, k);
        have, toRead := have + d[..k], toRead - k;
      }
      if toRead == 0 {
        signal := Steps();
        return;
      }
      return Hungry;
    }

    /**
      The engine: `stream` arrives in pieces of any size, each read into the buffer that
      GetBuffer gives for a buffer size of `size`, and all of a piece is decoded before the next.
      What comes out depends on the stream alone.
     */
    method Receive(stream: seq<Byte>, size: nat) returns (msgs: seq<M>, failed: bool, used: nat)
      requires Valid() && size > 0
      modifies this
      ensures Valid()
      ensures Outcome(At(), msgs, failed, used) == Feed(m, old(At()), stream)
      ensures !failed ==> used == |stream|
    {
      hide Feed, Finite;
      msgs, failed, used := [], false, 0;
      while used < |stream|
        invariant Valid() && used <= |stream|
        invariant Feed(m, old(At()), stream) == Feed(m, At(), stream[used..]).Behind(msgs, used)
      {
        var zeroCopy, room := GetBuffer(size);
        var n: nat :| 0 < n <= room && used + n <= |stream|;
        FeedConcat(m, At(), stream[used..used + n], stream[used + n..]);
        assert stream[used..used + n] + stream[used + n..] == stream[used..];
        var ms, bad, k := Piece(stream[used..used + n], zeroCopy);
        BehindBehind(Feed(m, At(), stream[used + n..]), msgs, used, ms, k);
        msgs, used := msgs + ms, used + k;
        if bad {
          return msgs, true, used;
        }
      }
      assert stream[used..] == [];
      FeedNothing(m, At());
    }

    method Piece(data: seq<Byte>, zeroCopy: bool) returns (msgs: seq<M>, failed: bool, used: nat)
      requires Valid() && data != [] && (zeroCopy ==> |data| <= toRead)
      modifies this
      ensures Valid() && used <= |data| && (!failed ==> used == |data|)
      ensures Outcome(At(), msgs, failed, used) == Feed(m, old(At()), data)
    {
      hide Feed, Finite;
      msgs, used := [], 0;
      var direct := zeroCopy;
      while used < |data|
        invariant Valid() && used <= |data| && (direct ==> used == 0 && 0 < |data| <= toRead)
        invariant Feed(m, old(At()), data) == Feed(m, At(), data[used..]).Behind(msgs, used)
        decreases |data| - used, if toRead == 0 then m.rank(s) + 1 else 0
      {
        var signal, k := Decode(data[used..], direct);
        assert data[used..][k..] == data[used + k..];
        direct, used := false, used + k;
        match signal
        case Hungry => return msgs, false, used;
        case Err => return msgs, true, used;
        case Got(msg) =>
          BehindBehind(Feed(m, At(), data[used..]), msgs, used - k, [msg], k);
          msgs := msgs + [msg];
      }
      assert data[used..] == [];
      FeedNothing(m, At());
      return msgs, false, used;
    }
  }
}
