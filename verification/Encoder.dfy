/**
  The incremental encoder (zmq::encoder_base_t, ExternalLib/libzmq/src/encoder.hpp) over any step
  machine.
 */
module Encoder {
  import opened Wire
  import opened Wrappers

  // What a step schedules (next_step): some bytes, the next step, and whether they are the last
  // of the message.
  datatype Chunk<S> = Chunk(s: S, bytes: seq<Byte>, last: bool)

  // `rank` bounds the chunks of a message.
  datatype Machine<!S, !M> = Machine(step: (S, M) -> Chunk<S>, rank: S -> nat)

  ghost predicate Finite<S(!new), M(!new)>(m: Machine<S, M>) {
    forall s: S, msg: M :: var r := m.step(s, msg); !r.last ==> m.rank(r.s) < m.rank(s)
  }

  // The chunks of a message from step `s` on, and the step behind them.
  ghost function Rest<S(!new), M(!new)>(m: Machine<S, M>, s: S, msg: M): seq<Byte>
    requires Finite(m)
    decreases m.rank(s)
  {
    var r := m.step(s, msg);
    r.bytes + if r.last then [] else Rest(m, r.s, msg)
  }

  ghost function Behind<S(!new), M(!new)>(m: Machine<S, M>, s: S, msg: M): S
    requires Finite(m)
    decreases m.rank(s)
  {
    var r := m.step(s, msg);
    if r.last then r.s else Behind(m, r.s, msg)
  }

  // The chunk is one of those a message has from step `s` on.
  ghost predicate Scheduled<S(!new), M(!new)>(m: Machine<S, M>, s: S, msg: M, chunk: seq<Byte>)
    requires Finite(m)
    decreases m.rank(s)
  {
    var r := m.step(s, msg);
    chunk == r.bytes || (!r.last && Scheduled(m, r.s, msg, chunk))
  }

  // The encoding of a run of messages.
  ghost function Stream<S(!new), M(!new)>(m: Machine<S, M>, s: S, msgs: seq<M>): seq<Byte>
    requires Finite(m)
  {
    if msgs == [] then [] else Rest(m, s, msgs[0]) + Stream(m, Behind(m, s, msgs[0]), msgs[1..])
  }

  // What is left of the message in progress.
  datatype Left<S> = Left(bytes: seq<Byte>, s: S)

  class Encoder<S(!new), M(!new)> {
    const m: Machine<S, M>
    const bufSize: nat
    var s: S
    // The bytes at `_write_pos`, of length `_to_write`.
    var toWrite: seq<Byte>
    var newMsg: bool
    var inProgress: Option<M>
    // How many messages have been closed.
    ghost var closed: nat

    // Between messages nothing is left to write.
    ghost predicate Valid()
      reads this
    {
      Finite(m) && (inProgress.None? ==> toWrite == [] && newMsg)
    }

    ghost function Pending(): Left<S>
      requires Finite(m)
      reads this
    {
      if inProgress.None? || newMsg then Left(toWrite, s)
      else Left(toWrite + Rest(m, s, inProgress.value), Behind(m, s, inProgress.value))
    }

    // What is at `_write_pos`, and the chunks to come.
    ghost function Chunks(): iset<seq<Byte>>
      requires Finite(m)
      reads this
    {
      iset c | c == toWrite || (inProgress.Some? && !newMsg && Scheduled(m, s, inProgress.value, c))
    }

    constructor (m: Machine<S, M>, s: S, bufSize: nat)
      requires Finite(m)
      ensures Valid() && this.m == m && this.s == s && this.bufSize == bufSize && inProgress.None? && closed == 0
    {
      this.m, this.bufSize, this.s, this.toWrite, this.newMsg, this.inProgress := m, bufSize, s, [], true, None;
      this.closed := 0;
    }

    method LoadMsg(msg: M)
      requires Valid() && inProgress.None?
      modifies this
      ensures Valid() && inProgress == Some(msg) && closed == old(closed)
      ensures Pending() == Left(Rest(m, old(s), msg), Behind(m, old(s), msg))
    {
      inProgress := Some(msg);
      Next(msg);
    }

    method Next(msg: M)
      modifies this`s, this`toWrite, this`newMsg
      ensures Chunk(s, toWrite, newMsg) == m.step(old(s), msg)
    {
      var r := m.step(s, msg);
      s, toWrite, newMsg := r.s, r.bytes, r.last;
    }

    // All bytes of a chunk have been taken, and there is another one.
    method Refill()
      requires Valid() && inProgress.Some? && toWrite == [] && !newMsg
      modifies this`s, this`toWrite, this`newMsg
      ensures Valid() && Pending() == old(Pending()) && (newMsg || m.rank(s) < m.rank(old(s)))
      ensures Chunks() <= old(Chunks())
    {
      Next(inProgress.value);
    }

    // All bytes of the message have been taken.
    method Close()
      requires Valid() && inProgress.Some? && toWrite == [] && newMsg
      modifies this`inProgress, this`closed
      ensures Valid() && inProgress.None? && closed == old(closed) + 1
      ensures Pending() == old(Pending()) && Pending().bytes == []
    {
      closed := closed + 1;
      inProgress := None;
    }

    lemma Empty()
      requires Valid() && inProgress.None?
      ensures Pending() == Left([], s)
    {
    }

    lemma Current()
      requires Finite(m)
      ensures toWrite in Chunks()
    {
    }

    method Take(k: nat) returns (part: seq<Byte>)
      requires Valid() && inProgress.Some? && k <= |toWrite|
      modifies this`toWrite
      ensures Valid() && part + Pending().bytes == old(Pending().bytes) && Pending().s == old(Pending().s)
      ensures |part| == k && |toWrite| == |old(toWrite)| - k && (k == |old(toWrite)| ==> part == old(toWrite))
    {
      assert toWrite == toWrite[..k] + toWrite[k..];
      part, toWrite := toWrite[..k], toWrite[k..];
    }

    /**
      One call, with the caller's buffer or the encoder's own one.  The bytes come in order and
      none is lost.  A call fills the buffer, and closes the message if that leaves room.  Only
      the encoder's own buffer is exceeded, by a chunk that is given out where it lies.
     */
    method Encode(buffer: Option<nat>) returns (out: seq<Byte>)
      requires Valid()
      modifies this
      ensures Valid()
      ensures old(Pending()) == Left(out + Pending().bytes, Pending().s)
      ensures old(inProgress).None? ==> out == []
      ensures old(inProgress).Some? ==>
                (inProgress.None? <==> |out| < if buffer.Some? then buffer.value else bufSize)
      ensures buffer.Some? ==> |out| <= buffer.value
      ensures |out| > bufSize && buffer.None? ==> out in old(Chunks())
      ensures if old(inProgress).Some? && inProgress.None? then closed == old(closed) + 1 && Pending().bytes == []
              else closed == old(closed) && inProgress == old(inProgress)
    {
      hide Finite, Encoder.Pending, Encoder.Chunks;
      var size := if buffer.Some? then buffer.value else bufSize;
      out := [];
      if inProgress.None? {
        Empty();
        return;
      }
      while |out| < size
        invariant Valid() && inProgress == old(inProgress) && closed == old(closed) && |out| <= size
        invariant old(Pending()) == Left(out + Pending().bytes, Pending().s)
        invariant out == [] ==> Chunks() <= old(Chunks())
        decreases if newMsg then 0 else m.rank(s) + 1, |toWrite|
      {
        if toWrite == [] {
          if newMsg {
            Close();
            break;
          }
          Refill();
        }
        if out == [] && buffer.None? && |toWrite| >= size {
          Current();
          out := Take(|toWrite|);
          return;
        }
        var k := if |toWrite| <= size - |out| then |toWrite| else size - |out|;
        var part := Take(k);
        out := out + part;
      }
    }

    // A message goes out through buffers of any sizes, and is closed once.
    method Send(msg: M) returns (out: seq<Byte>)
      requires Valid() && inProgress.None? && bufSize > 0
      modifies this
      ensures Valid() && inProgress.None? && closed == old(closed) + 1
      ensures out == Rest(m, old(s), msg) && s == Behind(m, old(s), msg)
    {
      hide Rest, Behind, Scheduled;
      LoadMsg(msg);
      out := [];
      while inProgress.Some?
        invariant Valid() && closed == old(closed) + if inProgress.Some? then 0 else 1
        invariant out + Pending().bytes == Rest(m, old(s), msg) && Pending().s == Behind(m, old(s), msg)
        invariant inProgress.None? ==> Pending().bytes == []
        decreases if inProgress.Some? then 1 else 0, |Pending().bytes|
      {
        var buffer: Option<nat> :| buffer.Some? ==> buffer.value > 0;
        var part := Encode(buffer);
        out := out + part;
      }
    }

    method SendAll(msgs: seq<M>) returns (out: seq<Byte>)
      requires Valid() && inProgress.None? && bufSize > 0
      modifies this
      ensures Valid() && inProgress.None? && closed == old(closed) + |msgs|
      ensures out == Stream(m, old(s), msgs)
    {
      out := [];
      for i := 0 to |msgs|
        invariant Valid() && inProgress.None? && closed == old(closed) + i
        invariant out + Stream(m, s, msgs[i..]) == Stream(m, old(s), msgs)
      {
        assert msgs[i..][1..] == msgs[i + 1..];
        var part := Send(msgs[i]);
        out := out + part;
      }
    }
  }
}
