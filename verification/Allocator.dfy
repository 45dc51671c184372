/**
  The shared receive buffer (zmq::shared_message_memory_allocator,
  ExternalLib/libzmq/src/decoder_allocators.cpp).  A decoder fills the buffer and builds messages
  that point into it; the messages are closed by other threads.  A counter at the head of the
  buffer decides who frees it.

  Every step below is one atomic operation of one thread, so a run is any interleaving.
 */
module Allocator {
  import opened Wrappers
  import M = Message

  // A buffer that was malloc'ed: its counter, and how often it has been freed.
  datatype Cell = Cell(count: int, frees: nat)

  // Where the decoder stands: between calls, or in allocate or deallocate after their first
  // decrement, which told whether references are left, or about to get a new buffer, or with a
  // message that points into the buffer and is not counted yet.
  datatype Pc = Idle | Allocating(left: bool) | Wanting | Building(msg: nat, at: Place) | Deallocating(left: bool)

  // Where a message lives: in buffer `buf`, the `content`-th of the contents behind the bytes, and
  // `size` of the bytes.
  datatype Place = Place(buf: nat, content: nat, from: nat, size: nat) {
    ghost predicate Apart(that: Place) {
      buf == that.buf ==> content != that.content && (from + size <= that.from || that.from + that.size <= from)
    }

    ghost predicate Within(maxSize: nat) {
      from + size <= maxSize && content < MaxCounters(maxSize)
    }
  }

  // `msgs` gives the place of each counted message; `dying` are the buffers whose counter a
  // closing message has brought to zero and is about to free.  Of the current buffer, `used` bytes
  // have been decoded and `contents` contents given out.
  datatype State = State(
    maxSize: nat, cells: map<nat, Cell>, buf: Option<nat>, pc: Pc,
    msgs: map<nat, Place>, dying: set<nat>, used: nat, contents: nat)

  function Init(maxSize: nat): State {
    State(maxSize, map[], None, Idle, map[], {}, 0, 0)
  }

  function MaxCounters(maxSize: nat): (n: nat)
    ensures maxSize <= n * M.MAX_VSM_SIZE < maxSize + M.MAX_VSM_SIZE
  {
    (maxSize + M.MAX_VSM_SIZE - 1) / M.MAX_VSM_SIZE
  }

  datatype Action =
    // allocate
    | Allocate | Release | Reuse | Malloc(b: nat)
    // a message over `size` bytes of the buffer, behind a gap of headers and of messages that are
    // copied: init_external_storage, then inc_ref
    | Build(m: nat, gap: nat, size: nat) | IncRef
    // deallocate
    | Deallocate | Free
    // call_dec_ref, in the thread that closes the message
    | DecRef(m: nat) | FreeLast(b: nat)

  function Add(s: State, b: nat, n: int): State
    requires b in s.cells
  {
    s.(cells := s.cells[b := s.cells[b].(count := s.cells[b].count + n)])
  }

  function Freed(s: State, b: nat): State
    requires b in s.cells
  {
    s.(cells := s.cells[b := s.cells[b].(frees := s.cells[b].frees + 1)])
  }

  // A step can be taken.  Messages large enough to point into the buffer have at least
  // M.MAX_VSM_SIZE bytes, and lie one behind the other.
  predicate Enabled(s: State, a: Action) {
    match a
    case Allocate => s.pc.Idle? && (s.buf.Some? ==> s.buf.value in s.cells)
    case Release => s.pc == Allocating(true)
    case Reuse => s.pc == Allocating(false) && s.buf.Some? && s.buf.value in s.cells
    case Malloc(b) => s.pc.Wanting? && b !in s.cells
    case Build(m, gap, size) =>
      s.pc.Idle? && s.buf.Some? && m !in s.msgs && size >= M.MAX_VSM_SIZE && s.used + gap + size <= s.maxSize
    case IncRef => s.pc.Building? && s.buf.Some? && s.buf.value in s.cells
    case Deallocate => s.pc.Idle? && (s.buf.Some? ==> s.buf.value in s.cells)
    case Free => s.pc.Deallocating? && s.buf.Some? && s.buf.value in s.cells
    case DecRef(m) => m in s.msgs && s.msgs[m].buf in s.cells
    case FreeLast(b) => b in s.dying && b in s.cells
  }

  function Step(s: State, a: Action): State
    requires Enabled(s, a)
  {
    match a
    case Allocate =>
      if s.buf.None? then s.(pc := Wanting)
      else var t := Add(s, s.buf.value, -1); t.(pc := Allocating(t.cells[s.buf.value].count != 0))
    case Release => s.(buf := None, pc := Wanting)
    case Reuse =>
      s.(cells := s.cells[s.buf.value := s.cells[s.buf.value].(count := 1)], pc := Idle, used := 0, contents := 0)
    case Malloc(b) => s.(cells := s.cells[b := Cell(1, 0)], buf := Some(b), pc := Idle, used := 0, contents := 0)
    case Build(m, gap, size) =>
      var at := Place(s.buf.value, s.contents, s.used + gap, size);
      s.(pc := Building(m, at), used := s.used + gap + size, contents := s.contents + 1)
    case IncRef => Add(s, s.buf.value, 1).(pc := Idle, msgs := s.msgs[s.pc.msg := s.pc.at])
    case Deallocate =>
      if s.buf.None? then s
      else var t := Add(s, s.buf.value, -1); t.(pc := Deallocating(t.cells[s.buf.value].count != 0))
    case Free => (if s.pc.left then s else Freed(s, s.buf.value)).(buf := None, pc := Idle)
    case DecRef(m) =>
      var b := s.msgs[m].buf;
      var t := Add(s, b, -1);
      t.(msgs := s.msgs - {m}, dying := if t.cells[b].count != 0 then s.dying else s.dying + {b})
    case FreeLast(b) => Freed(s, b).(dying := s.dying - {b})
  }

  // A step that is not possible when its turn comes is skipped.
  function Run(s: State, actions: seq<Action>): State {
    if actions == [] then s
    else
      var t := Run(s, actions[..|actions| - 1]);
      var a := actions[|actions| - 1];
      if Enabled(t, a) then Step(t, a) else t
  }

  // ---------------------------------------------------------------- who holds a buffer

  ghost function Users(s: State, b: nat): set<nat> {
    set m | m in s.msgs && s.msgs[m].buf == b
  }

  // The decoder's own reference.
  ghost predicate Held(s: State, b: nat) {
    s.buf == Some(b) && (s.pc.Idle? || s.pc.Building?)
  }

  ghost function Owners(s: State, b: nat): nat {
    |Users(s, b)| + if Held(s, b) then 1 else 0
  }

  // Somebody found the counter at zero, and so has the buffer alone: the decoder in allocate or
  // deallocate, or the last message.
  ghost predicate Claimed(s: State, b: nat) {
    b in s.dying || (s.buf == Some(b) && (s.pc == Allocating(false) || s.pc == Deallocating(false)))
  }

  ghost predicate GoodCell(s: State, b: nat) {
    b in s.cells &&
    var c := s.cells[b];
    && c.count == Owners(s, b)
    && (c.count > 0 ==> c.frees == 0 && !Claimed(s, b))
    && (c.count == 0 ==> c.frees == if Claimed(s, b) then 0 else 1)
    && !(b in s.dying && s.buf == Some(b) && (s.pc == Allocating(false) || s.pc == Deallocating(false)))
  }

  ghost predicate Good(s: State) {
    && (forall b :: b in s.cells ==> GoodCell(s, b))
    && (forall m :: m in s.msgs ==> s.msgs[m].buf in s.cells)
    && (forall b :: b in s.dying ==> b in s.cells)
    && (s.buf.Some? ==> s.buf.value in s.cells)
    && (s.pc.Wanting? ==> s.buf.None?)
    && (s.pc.Building? || s.pc.Allocating? || s.pc.Deallocating? ==> s.buf.Some?)
    && (s.pc.Building? ==> s.pc.msg !in s.msgs && s.buf == Some(s.pc.at.buf))
    && s.contents * M.MAX_VSM_SIZE <= s.used <= s.maxSize
  }

  // A message that leaves `msgs`, or joins them, changes the users of its own buffer only.
  lemma UsersLess(s: State, t: State, m: nat, b: nat)
    requires m in s.msgs && t.msgs == s.msgs - {m}
    ensures |Users(t, b)| == |Users(s, b)| - if s.msgs[m].buf == b then 1 else 0
  {
    assert Users(t, b) == Users(s, b) - {m};
  }

  lemma UsersMore(s: State, t: State, m: nat, to: Place, b: nat)
    requires m !in s.msgs && t.msgs == s.msgs[m := to]
    ensures |Users(t, b)| == |Users(s, b)| + if to.buf == b then 1 else 0
  {
    assert Users(t, b) == if to.buf == b then Users(s, b) + {m} else Users(s, b);
  }

  lemma GoodInit(maxSize: nat)
    ensures Good(Init(maxSize))
  {
  }

  lemma GoodStep(s: State, a: Action)
    requires Good(s) && Enabled(s, a)
    ensures Good(Step(s, a))
  {
    var t := Step(s, a);
    forall b | b in t.cells ensures GoodCell(t, b) {
      GoodCellStep(s, a, b);
    }
  }

  lemma GoodCellStep(s: State, a: Action, b: nat)
    requires Good(s) && Enabled(s, a) && b in Step(s, a).cells
    ensures GoodCell(Step(s, a), b)
  {
    var t := Step(s, a);
    match a
    case DecRef(m) => UsersLess(s, t, m, b);
    case IncRef => UsersMore(s, t, s.pc.msg, s.pc.at, b);
    case Malloc(n) =>
      assert Users(t, b) == Users(s, b);
      if b == n { assert Users(s, b) == {}; }
    case _ => assert Users(t, b) == Users(s, b);
  }

  // ---------------------------------------------------------------- what it is for

  /**
    In every state of every run: a buffer that a message points into is not freed and is not
    about to be, nor is the one the decoder fills; no buffer is freed twice.
   */
  ghost predicate Safe(s: State) {
    && (forall m :: m in s.msgs ==>
         var b := s.msgs[m].buf; b in s.cells && s.cells[b].frees == 0 && !Claimed(s, b))
    && (forall b :: Held(s, b) ==> b in s.cells && s.cells[b].frees == 0 && !Claimed(s, b))
    && (forall b :: b in s.cells ==> s.cells[b].frees <= 1)
  }

  lemma {:induction false} AlwaysGood(maxSize: nat, actions: seq<Action>)
    ensures Good(Run(Init(maxSize), actions)) && Run(Init(maxSize), actions).maxSize == maxSize
  {
    if actions == [] {
      GoodInit(maxSize);
    } else {
      var t, a := Run(Init(maxSize), actions[..|actions| - 1]), actions[|actions| - 1];
      AlwaysGood(maxSize, actions[..|actions| - 1]);
      if Enabled(t, a) { GoodStep(t, a); }
    }
  }

  lemma AlwaysSafe(maxSize: nat, actions: seq<Action>)
    ensures Safe(Run(Init(maxSize), actions))
  {
    var s := Run(Init(maxSize), actions);
    AlwaysGood(maxSize, actions);
    forall m | m in s.msgs ensures s.cells[s.msgs[m].buf].frees == 0 && !Claimed(s, s.msgs[m].buf) {
      assert m in Users(s, s.msgs[m].buf);
    }
  }

  // A message in the current buffer lies in what has been given out of it.
  ghost predicate Behind(s: State, at: Place) {
    at.Within(s.maxSize) && (s.buf == Some(at.buf) ==> at.content < s.contents && at.from + at.size <= s.used)
  }

  ghost predicate Placed(s: State) {
    && (forall m :: m in s.msgs ==> Behind(s, s.msgs[m]))
    && (forall m, n :: m in s.msgs && n in s.msgs && m != n ==> s.msgs[m].Apart(s.msgs[n]))
    && (s.pc.Building? ==> Behind(s, s.pc.at) && forall m :: m in s.msgs ==> s.msgs[m].Apart(s.pc.at))
  }

  lemma Unused(s: State)
    requires Good(s) && Enabled(s, Reuse)
    ensures forall m :: m in s.msgs ==> s.msgs[m].buf != s.buf.value
  {
    assert GoodCell(s, s.buf.value) && Users(s, s.buf.value) == {};
    assert forall m :: m in s.msgs && s.msgs[m].buf == s.buf.value ==> m in Users(s, s.buf.value);
  }

  lemma PlacedStep(s: State, a: Action)
    requires Good(s) && Placed(s) && Enabled(s, a)
    ensures Placed(Step(s, a))
  {
    hide GoodCell;
    var t := Step(s, a);
    if a.Reuse? { Unused(s); }
    assert forall m :: m in t.msgs ==> Behind(t, t.msgs[m]);
  }

  /**
    In every state of every run each message that points into a buffer has a content of its own
    there, and bytes of its own, within the buffer.
   */
  lemma {:induction false} AlwaysPlaced(maxSize: nat, actions: seq<Action>)
    ensures Placed(Run(Init(maxSize), actions))
    ensures var s := Run(Init(maxSize), actions);
            && (forall m :: m in s.msgs ==> s.msgs[m].Within(maxSize))
            && (forall m, n :: m in s.msgs && n in s.msgs && m != n ==> s.msgs[m].Apart(s.msgs[n]))
  {
    AlwaysGood(maxSize, actions);
    if actions != [] {
      var t, a := Run(Init(maxSize), actions[..|actions| - 1]), actions[|actions| - 1];
      AlwaysGood(maxSize, actions[..|actions| - 1]);
      AlwaysPlaced(maxSize, actions[..|actions| - 1]);
      if Enabled(t, a) { PlacedStep(t, a); }
    }
  }

  // The step frees buffer `b`, or starts to fill it again.
  ghost predicate TakesOver(s: State, a: Action, b: nat) {
    && Enabled(s, a)
    && match a
       case Reuse => s.buf == Some(b)
       case Free => s.buf == Some(b) && !s.pc.left
       case FreeLast(x) => x == b
       case _ => false
  }

  lemma NotInUse(maxSize: nat, actions: seq<Action>, a: Action, b: nat)
    requires TakesOver(Run(Init(maxSize), actions), a, b)
    ensures var s := Run(Init(maxSize), actions); Users(s, b) == {} && !Held(s, b) && s.cells[b].frees == 0
  {
    var s := Run(Init(maxSize), actions);
    AlwaysGood(maxSize, actions);
    assert GoodCell(s, b);
  }

  // With the allocator destroyed, the messages closed and nobody half-way through a step, every
  // buffer there ever was has been freed exactly once.
  lemma AllFreed(maxSize: nat, actions: seq<Action>)
    requires var s := Run(Init(maxSize), actions); s.pc.Idle? && s.buf.None? && s.msgs == map[] && s.dying == {}
    ensures var s := Run(Init(maxSize), actions); forall b :: b in s.cells ==> s.cells[b].frees == 1
  {
    var s := Run(Init(maxSize), actions);
    AlwaysGood(maxSize, actions);
    forall b | b in s.cells ensures s.cells[b].frees == 1 {
      assert GoodCell(s, b) && Users(s, b) == {};
    }
  }

  // There is always a place for the reference count of one more message.
  lemma ContentsFit(maxSize: nat, actions: seq<Action>, m: nat, gap: nat, size: nat)
    requires Enabled(Run(Init(maxSize), actions), Build(m, gap, size))
    ensures Run(Init(maxSize), actions).contents < MaxCounters(maxSize)
  {
    AlwaysGood(maxSize, actions);
  }

  // Messages may have been closed; the others are where they were.
  ghost predicate Kept(before: map<nat, Place>, now: map<nat, Place>) {
    now.Keys <= before.Keys && forall m :: m in now ==> now[m] == before[m]
  }

  // ---------------------------------------------------------------- the allocator

  /**
    The object itself.  `s` holds its fields `_buf` and `_msg_content` and the counters in the
    buffers; between any two steps other threads may close messages.
   */
  class SharedMessageMemoryAllocator {
    const maxSize: nat
    var s: State
    // Buffers and messages made so far have lower numbers.
    var next: nat
    ghost var trace: seq<Action>

    ghost predicate Valid()
      reads this
    {
      && s == Run(Init(maxSize), trace)
      && (forall b :: b in s.cells ==> b < next) && (forall m :: m in s.msgs ==> m < next)
      && (s.pc.Building? ==> s.pc.msg < next)
    }

    constructor (maxSize: nat)
      ensures Valid() && this.maxSize == maxSize && s == Init(maxSize)
    {
      this.maxSize, s, next, trace := maxSize, Init(maxSize), 0, [];
    }

    // One atomic step.
    method Do(a: Action)
      requires Valid() && Enabled(s, a) && (a.Malloc? ==> a.b < next) && (a.Build? ==> a.m < next)
      modifies this`s, this`trace
      ensures Valid() && s == Step(old(s), a)
    {
      assert (trace + [a])[..|trace|] == trace;
      s, trace := Step(s, a), trace + [a];
    }

    // Other threads close messages.
    method Others()
      requires Valid()
      modifies this`s, this`trace
      ensures Valid() && s.(cells := old(s).cells, msgs := old(s).msgs, dying := old(s).dying) == old(s)
      ensures Kept(old(s).msgs, s.msgs) && s.cells.Keys == old(s).cells.Keys
    {
      var todo: seq<Action> := *;
      for i := 0 to |todo|
        invariant Valid() && s.(cells := old(s).cells, msgs := old(s).msgs, dying := old(s).dying) == old(s)
        invariant Kept(old(s).msgs, s.msgs) && s.cells.Keys == old(s).cells.Keys
      {
        if (todo[i].DecRef? || todo[i].FreeLast?) && Enabled(s, todo[i]) {
          Do(todo[i]);
        }
      }
    }

    // The decoder has a buffer of its own to fill, and no message points into it.  It is the old
    // one if and only if no message points into that, and a new one otherwise.
    method Allocate()
      requires Valid() && s.pc.Idle?
      modifies this
      ensures Valid() && s.pc.Idle? && s.buf.Some? && s.used == 0 && s.contents == 0
      ensures Users(s, s.buf.value) == {} && s.buf.value in s.cells && s.cells[s.buf.value] == Cell(1, 0)
      ensures old(s).buf.Some? ==> (s.buf == old(s).buf <==> Users(old(s), old(s).buf.value) == {})
      ensures s.buf == old(s).buf || s.buf.value !in old(s).cells
    {
      hide Run;
      AlwaysGood(maxSize, trace);
      assert s.buf.Some? ==> GoodCell(s, s.buf.value);
      var had := s.buf.Some?;
      Do(Action.Allocate);
      Others();
      if had {
        if s.pc.left {
          Do(Release);
        }
      }
      Others();
      AlwaysGood(maxSize, trace);
      if s.buf.None? {
        next := next + 1;
        Do(Malloc(next - 1));
      } else {
        NotInUse(maxSize, trace, Reuse, s.buf.value);
        assert GoodCell(s, s.buf.value);
        Do(Reuse);
      }
    }

    // The decoder gives up its buffer, and frees it if no message points into it.
    method Deallocate()
      requires Valid() && s.pc.Idle?
      modifies this`s, this`trace
      ensures Valid() && s.pc.Idle? && s.buf.None? && (old(s).buf.None? ==> s == old(s))
      ensures old(s).buf.Some? ==> var b := old(s).buf.value;
              b in s.cells && (Users(old(s), b) == {} ==> s.cells[b].frees == 1)
    {
      hide Run;
      AlwaysGood(maxSize, trace);
      assert s.buf.Some? ==> GoodCell(s, s.buf.value);
      if s.buf.Some? {
        Do(Action.Deallocate);
        Others();
        AlwaysGood(maxSize, trace);
        assert GoodCell(s, s.buf.value);
        Do(Free);
      }
    }

    // A message over `size` bytes behind the gap: its content, then its reference.  The places of
    // the other messages are not touched.
    method MakeMessage(gap: nat, size: nat) returns (m: nat)
      requires Valid() && s.pc.Idle? && s.buf.Some? && size >= M.MAX_VSM_SIZE && s.used + gap + size <= s.maxSize
      modifies this
      ensures Valid() && s.pc.Idle? && s.buf == old(s).buf && m !in old(s).msgs && m in s.msgs
      ensures s.msgs[m] == Place(s.buf.value, old(s).contents, old(s).used + gap, size)
      ensures s.contents == old(s).contents + 1 && s.used == old(s).used + gap + size
      ensures Kept(old(s).msgs, s.msgs - {m}) && old(s).contents < MaxCounters(maxSize)
      ensures s.msgs[m].Within(maxSize) && forall n :: n in s.msgs && n != m ==> s.msgs[m].Apart(s.msgs[n])
      ensures s.buf.value in s.cells && s.cells[s.buf.value].frees == 0
    {
      hide Run, GoodCell;
      AlwaysGood(maxSize, trace);
      m := next;
      next := next + 1;
      ContentsFit(maxSize, trace, m, gap, size);
      Do(Build(m, gap, size));
      Others();
      AlwaysGood(maxSize, trace);
      Do(IncRef);
      AlwaysSafe(maxSize, trace);
      AlwaysPlaced(maxSize, trace);
    }
  }
}
