/**
  Pipes, and the array they are kept in by the distributor, the load balancer and the fair
  queue (ExternalLib/libzmq/src/array.hpp:53-137): every item carries its own position, so
  that it can be found, swapped and erased in constant time.

  A pipe is seen from its socket's side.  Whether there is room for a write is up to the other
  side: its next answers may be laid down in `answers`, and behind those it is a coin toss.  What
  the other side has flushed to us waits in `inbox`.
 */
module PipeArray {
  import opened Message

  // Where a part stands: the `part`-th part of the `msg`-th message.
  datatype Stamp = Stamp(msg: nat, part: nat)

  class Pipe {
    // array_item_t::_array_index
    var arrayIndex: int
    // Everything written and not taken back, and how much of it has been flushed to the reader.
    var out: seq<Body>
    var flushed: nat
    // The other side's next answers to a write.
    var answers: seq<bool>
    // What the reader of this pipe can fetch.
    var inbox: seq<Body>
    // The place of each written part in the run of messages of the pipe's owner.
    ghost var stamps: seq<Stamp>

    ghost predicate Valid()
      reads this`out, this`flushed, this`stamps
    {
      flushed <= |out| == |stamps|
    }

    constructor (answers: seq<bool>, inbox: seq<Body>)
      ensures arrayIndex == -1 && out == [] && flushed == 0 && stamps == [] && Valid()
      ensures this.answers == answers && this.inbox == inbox
    {
      arrayIndex, out, flushed, stamps := -1, [], 0, [];
      this.answers, this.inbox := answers, inbox;
    }

    // The next write will succeed; it will fail.
    ghost predicate Willing()
      reads this`answers
    {
      answers != [] && answers[0]
    }

    ghost predicate Unwilling()
      reads this`answers
    {
      answers != [] && !answers[0]
    }

    method Write(b: Body, ghost at: Stamp) returns (ok: bool)
      requires Valid()
      modifies this`out, this`stamps, this`answers
      ensures Valid() && (old(Willing()) ==> ok) && (old(Unwilling()) ==> !ok)
      ensures answers == if old(answers) == [] then [] else old(answers)[1..]
      ensures ok ==> out == old(out) + [b] && stamps == old(stamps) + [at]
      ensures !ok ==> out == old(out) && stamps == old(stamps)
    {
      ok := *;
      if answers != [] {
        ok, answers := answers[0], answers[1..];
      }
      if ok {
        out, stamps := out + [b], stamps + [at];
      }
    }

    // check_write: room that is found stays.
    method CheckWrite() returns (ok: bool)
      modifies this`answers
      ensures (old(Willing()) ==> ok) && (old(Unwilling()) ==> !ok)
      ensures answers == if ok || old(answers) == [] then old(answers) else old(answers)[1..]
    {
      ok := *;
      if answers != [] {
        ok := answers[0];
        if !ok {
          answers := answers[1..];
        }
      }
    }

    method Flush()
      requires Valid()
      modifies this`flushed
      ensures Valid() && flushed == |out|
    {
      flushed := |out|;
    }

    // Fetch the next part, if there is one.
    method Read() returns (ok: bool, b: Body)
      modifies this`inbox
      ensures ok == (old(inbox) != [])
      ensures ok ==> b == old(inbox)[0] && inbox == old(inbox)[1..]
      ensures !ok ==> inbox == old(inbox) && b == EMPTY
    {
      ok, b := inbox != [], EMPTY;
      if ok {
        b, inbox := inbox[0], inbox[1..];
      }
    }

    // Take back what has not been flushed, which is the first parts of a message.
    method Rollback()
      requires Valid() && forall i :: flushed <= i < |out| ==> out[i].more
      modifies this`out, this`stamps
      ensures Valid() && out == old(out)[..flushed] && stamps == old(stamps)[..flushed]
    {
      while |out| > flushed
        invariant flushed <= |out| <= |old(out)| && |stamps| == |out|
        invariant out == old(out)[..|out|] && stamps == old(stamps)[..|out|]
      {
        assert out[|out| - 1].more;
        out, stamps := out[..|out| - 1], stamps[..|stamps| - 1];
      }
    }
  }

  ghost function Swapped<T>(s: seq<T>, i: nat, j: nat): seq<T>
    requires i < |s| && j < |s|
  {
    s[i := s[j]][j := s[i]]
  }

  // The position of an item after the items at `i` and `j` have changed places.
  function Moved(k: int, i: int, j: int): int {
    if k == i then j else if k == j then i else k
  }

  // array_t::erase: the last item takes the place of the one at `k`.
  ghost function Without<T>(s: seq<T>, k: nat): seq<T>
    requires k < |s|
  {
    s[k := s[|s| - 1]][..|s| - 1]
  }

  // ---------------------------------------------------------------- going round

  // The active pipes in their order, and the one whose turn it is.
  datatype Ring = Ring(turn: seq<Pipe>, current: nat) {
    predicate Ok() {
      current < |turn| || (turn == [] && current == 0)
    }

    ghost function At(): Pipe?
    {
      if current < |turn| then turn[current] else null
    }

    // The turn goes to the next pipe.
    function Next(): Ring
      requires turn != []
    {
      Ring(turn, if current + 1 < |turn| then current + 1 else 0)
    }

    // The pipe whose turn it is leaves; the last one takes its place and its turn.
    ghost function Demoted(): Ring
      requires Ok() && turn != []
    {
      Ring(Without(turn, current), if current < |turn| - 1 then current else 0)
    }
  }

  // The ring when `k` pipes have been tried and have left.
  ghost function Rounds(r: Ring, k: nat): (t: Ring)
    requires r.Ok() && k <= |r.turn|
    ensures t.Ok() && |t.turn| == |r.turn| - k
    decreases k
  {
    if k == 0 then r else Rounds(r.Demoted(), k - 1)
  }

  // The pipe that is tried then.
  ghost function Candidate(r: Ring, k: nat): Pipe
    requires r.Ok() && k < |r.turn|
  {
    Rounds(r, k).turn[Rounds(r, k).current]
  }

  lemma {:induction false} RoundsStep(r: Ring, k: nat)
    requires r.Ok() && k < |r.turn|
    ensures Rounds(r, k + 1) == Rounds(r, k).Demoted()
    decreases k
  {
    if k > 0 { RoundsStep(r.Demoted(), k - 1); }
  }

  // Whoever was in the ring still is, or has been tried.
  lemma {:induction false} RoundsTried(r: Ring, k: nat, p: Pipe)
    requires r.Ok() && k <= |r.turn|
    ensures p in r.turn <==> p in Rounds(r, k).turn || exists j :: 0 <= j < k && p == Candidate(r, j)
    decreases k
  {
    if k > 0 {
      var d := r.Demoted();
      RoundsTried(d, k - 1, p);
      WithoutIn(r.turn, r.current, p);
      assert Candidate(r, 0) == r.turn[r.current];
      forall j | 0 <= j < k - 1 ensures Candidate(d, j) == Candidate(r, j + 1) {}
      if p in r.turn && p !in Rounds(r, k).turn && p != Candidate(r, 0) {
        var j :| 0 <= j < k - 1 && p == Candidate(d, j);
        assert p == Candidate(r, j + 1);
      }
      forall j | 0 <= j < k && p == Candidate(r, j) ensures p in r.turn {
        if j > 0 { assert p == Candidate(d, j - 1); }
      }
    }
  }

  lemma WithoutIn<T>(s: seq<T>, k: nat, x: T)
    requires k < |s|
    ensures x in s <==> x in Without(s, k) || x == s[k]
  {
    var t := Without(s, k);
    if x in s && x != s[k] {
      var i :| 0 <= i < |s| && s[i] == x;
      assert t[if i == |s| - 1 then k else i] == x;
    }
    if x in t {
      var i :| 0 <= i < |t| && t[i] == x;
      assert s[if i == k then |s| - 1 else i] == x;
    }
  }

  /**
    The pipes of ring `r` were tried in turn, where those in `yes` had room and those in `no` had
    not.  0: the first `k` failed and left, the next took the part, and the turn stays with it if
    the message goes on (`m`), or goes to the next.  -1: all failed.  -2: the current one failed.
   */
  ghost predicate Served(r: Ring, yes: set<Pipe>, no: set<Pipe>, t: Ring, rc: int, to: Pipe?, k: nat, m: bool) {
    && r.Ok() && k <= |r.turn| && (forall j :: 0 <= j < k ==> Candidate(r, j) !in yes)
    && (rc == 0 ==>
          && k < |r.turn| && to == Candidate(r, k) && to !in no
          && t == if m then Rounds(r, k) else Rounds(r, k).Next())
    && (rc == -1 ==> t == Ring([], 0) && forall p :: p in r.turn ==> p !in yes)
    && (rc == -2 ==> k == 0 && t == r && k < |r.turn| && Candidate(r, 0) !in yes)
  }

  ghost function Elements(turn: seq<Pipe>): set<Pipe> {
    set p | p in turn
  }

  // The pipes were tried in turn, whatever room they had.
  ghost predicate WentRound(r: Ring, t: Ring, rc: int, to: Pipe?, more: bool) {
    exists k: nat :: Served(r, {}, {}, t, rc, to, k, more)
  }

  lemma ServedRound(r: Ring, yes: set<Pipe>, no: set<Pipe>, t: Ring, rc: int, to: Pipe?, k: nat, more: bool)
    requires Served(r, yes, no, t, rc, to, k, more)
    ensures WentRound(r, t, rc, to, more) && (rc == -2 ==> t == r)
  {
    assert Served(r, {}, {}, t, rc, to, k, more);
  }

  // A current pipe that has room takes the part.
  lemma FirstWilling(r: Ring, yes: set<Pipe>, no: set<Pipe>, t: Ring, rc: int, to: Pipe?, k: nat, m: bool)
    requires Served(r, yes, no, t, rc, to, k, m) && r.turn != [] && r.turn[r.current] in yes
    requires rc == 0 || rc == -1 || rc == -2
    ensures rc == 0 && k == 0 && to == r.turn[r.current] && t == if m then r else r.Next()
  {
    assert Candidate(r, 0) == r.turn[r.current];
  }

  lemma Chosen(r: Ring, yes: set<Pipe>, no: set<Pipe>, t: Ring, k: nat, p: Pipe, m: bool)
    requires r.Ok() && k < |r.turn| && p == Candidate(r, k) && p !in no
    requires forall j :: 0 <= j < k ==> Candidate(r, j) !in yes
    requires t == if m then Rounds(r, k) else Rounds(r, k).Next()
    ensures Served(r, yes, no, t, 0, p, k, m)
  {
  }

  lemma Stopped(r: Ring, yes: set<Pipe>, no: set<Pipe>, t: Ring, p: Pipe, m: bool)
    requires r.Ok() && r.turn != [] && p == Candidate(r, 0) && p !in yes && t == Rounds(r, 0)
    ensures Served(r, yes, no, t, -2, null, 0, m)
  {
  }

  // When the pipe at `k` leaves, the current one stays current, unless it slips.
  lemma StaysCurrent(turn: seq<Pipe>, k: nat, current: nat)
    requires k < |turn| && current < |turn| && current != k && forall i, j :: 0 <= i < j < |turn| ==> turn[i] != turn[j]
    ensures |turn| > 1
    ensures Without(turn, k)[if current == |turn| - 1 then 0 else current] == turn[current] <==>
            !(current == |turn| - 1 && 0 < k < current)
  {
  }

  class Array {
    var items: seq<Pipe>
    // The same items as a set.
    ghost var Repr: set<Pipe>

    // Every item knows its position; so no item is stored twice.
    ghost predicate Valid()
      reads this, Repr`arrayIndex
    {
      && (forall i :: 0 <= i < |items| ==> items[i] in Repr && items[i].arrayIndex == i)
      && (forall p :: p in Repr ==> 0 <= p.arrayIndex < |items| && items[p.arrayIndex] == p)
    }

    constructor ()
      ensures items == [] && Repr == {} && Valid()
    {
      items, Repr := [], {};
    }

    function Size(): nat
      reads this
    {
      |items|
    }

    method PushBack(p: Pipe)
      requires Valid() && p !in Repr
      modifies this, p`arrayIndex
      ensures Valid() && items == old(items) + [p] && Repr == old(Repr) + {p}
    {
      p.arrayIndex := |items|;
      items, Repr := items + [p], Repr + {p};
    }

    method Swap(i: nat, j: nat)
      requires Valid() && i < |items| && j < |items|
      modifies this`items, Repr`arrayIndex
      ensures Valid() && items == Swapped(old(items), i, j)
    {
      items[i].arrayIndex := j;
      items[j].arrayIndex := i;
      items := items[i := items[j]][j := items[i]];
    }

    // The last item takes the place of the erased one, which keeps its stale index.
    method Erase(p: Pipe)
      requires Valid() && p in Repr
      modifies this, Repr`arrayIndex
      ensures Valid() && items == Without(old(items), old(p.arrayIndex)) && Repr == old(Repr) - {p}
      ensures p.arrayIndex == old(p.arrayIndex)
    {
      var index := p.arrayIndex;
      items[|items| - 1].arrayIndex := index;
      items := items[index := items[|items| - 1]];
      items, Repr := items[..|items| - 1], Repr - {p};
    }

    // The load balancer and the fair queue go round the first `active` pipes.
    ghost predicate InTurn(active: nat, current: nat)
      reads this, Repr`arrayIndex
    {
      Valid() && active <= |items| && (current < active || (active == 0 && current == 0))
    }

    // The first `active` pipes.
    ghost function First(active: nat): set<Pipe>
      reads this`Repr, Repr`arrayIndex
    {
      set p | p in Repr && p.arrayIndex < active
    }

    // The active pipes, in order.
    ghost function Turn(active: nat, current: nat): Ring
      requires active <= |items|
      reads this`items
    {
      Ring(items[..active], current)
    }

    lemma TurnFirst(active: nat)
      requires Valid() && active <= |items|
      ensures forall p :: p in First(active) <==> p in items[..active]
    {
    }

    // The pipe at `current` has nothing to offer and leaves the active ones.
    method Demote(active: nat, current: nat) returns (active': nat, current': nat)
      requires InTurn(active, current) && active > 0
      modifies this`items, Repr`arrayIndex
      ensures InTurn(active', current') && active' == active - 1 && items == Swapped(old(items), current, active - 1)
      ensures Turn(active', current') == old(Turn(active, current)).Demoted()
      ensures First(active') == old(First(active)) - {old(items[current])}
    {
      active', current' := active - 1, current;
      Swap(current', active');
      if current' == active' {
        current' := 0;
      }
    }

    // pipe_terminated of the load balancer and of the fair queue, whose pipes are active up to
    // `active`: the pipe leaves, an active one is replaced by the last active one, and `current`
    // stays in range.  If another pipe than the current one leaves, that one stays the current
    // one exactly unless it is the last active one and the pipe stands between the first and it.
    method Retire(p: Pipe, active: nat, current: nat) returns (active': nat, current': nat)
      requires InTurn(active, current) && p in Repr
      modifies this, Repr`arrayIndex
      ensures InTurn(active', current') && Repr == old(Repr) - {p} && First(active') == old(First(active)) - {p}
      ensures active' == active - (if old(p.arrayIndex) < active then 1 else 0)
      ensures current' == if old(p.arrayIndex) < active && current == active - 1 then 0 else current
      ensures items[..active'] == if old(p.arrayIndex) < active then Without(old(items[..active]), old(p.arrayIndex))
                                  else old(items[..active])
      ensures active > 0 && p != old(items[current]) ==>
                && active' > 0
                && (items[current'] == old(items[current]) <==>
                    !(current == active - 1 && 0 < old(p.arrayIndex) < current))
    {
      ghost var turn, k := items[..active], p.arrayIndex;
      active', current' := Withdraw(p, active, current);
      if k < active && p != turn[current] { StaysCurrent(turn, k, current); }
      assert active' > 0 ==> items[..active'][current'] == items[current'];
    }

    method Withdraw(p: Pipe, active: nat, current: nat) returns (active': nat, current': nat)
      requires InTurn(active, current) && p in Repr
      modifies this, Repr`arrayIndex
      ensures InTurn(active', current') && Repr == old(Repr) - {p} && First(active') == old(First(active)) - {p}
      ensures active' == active - (if old(p.arrayIndex) < active then 1 else 0)
      ensures current' == if old(p.arrayIndex) < active && current == active - 1 then 0 else current
      ensures items[..active'] == if old(p.arrayIndex) < active then Without(old(items[..active]), old(p.arrayIndex))
                                  else old(items[..active])
    {
      var index := p.arrayIndex;
      active', current' := active, current;
      if index < active' {
        active' := active' - 1;
        Swap(index, active');
        if current' == active' {
          current' := 0;
        }
      }
      Erase(p);
    }

    // Exact even for a pipe that is not in the array and has a stale index.
    function Has(p: Pipe): (r: bool)
      requires Valid()
      reads this, p, Repr`arrayIndex
      ensures r <==> p in Repr
    {
      0 <= p.arrayIndex < |items| && items[p.arrayIndex] == p
    }

    function Index(p: Pipe): int
      reads p
    {
      p.arrayIndex
    }
  }
}
