/**
  The outbound distributor (zmq::dist_t, ExternalLib/libzmq/src/dist.cpp).  One array is
  split by three cursors: matching pipes first, then the other active ones, then those that
  are eligible but must wait for the next message, then the passive ones.
 */
module Dist {
  import opened Message
  import opened Runs
  import opened PipeArray
  import opened Partition
  import opened DistRun

  // The parts of each message on a pipe are a prefix of that message: part 0 opens a message
  // later than any before, and every other part directly follows its predecessor.
  ghost predicate Prefixes(st: seq<Stamp>) {
    forall i :: 0 <= i < |st| ==> InOrder(st, i)
  }

  ghost predicate InOrder(st: seq<Stamp>, i: nat)
    requires i < |st|
  {
    if st[i].part == 0 then i > 0 ==> st[i - 1].msg < st[i].msg
    else i > 0 && st[i - 1] == Stamp(st[i].msg, st[i].part - 1)
  }

  // ... and none is ahead of part `parts` of message `cur`.
  ghost predicate Orderly(st: seq<Stamp>, cur: nat, parts: nat) {
    && Prefixes(st)
    && forall i :: 0 <= i < |st| ==> st[i].msg < cur || (st[i].msg == cur && st[i].part < parts)
  }

  // The pipe has every part so far of message `cur`.
  ghost predicate UpToDate(st: seq<Stamp>, cur: nat, parts: nat) {
    parts > 0 && st != [] && st[|st| - 1] == Stamp(cur, parts - 1)
  }

  lemma OrderlyPush(st: seq<Stamp>, cur: nat, parts: nat)
    requires Orderly(st, cur, parts) && (parts > 0 ==> UpToDate(st, cur, parts))
    ensures Orderly(st + [Stamp(cur, parts)], cur, parts + 1)
    ensures UpToDate(st + [Stamp(cur, parts)], cur, parts + 1)
  {
    var t := st + [Stamp(cur, parts)];
    forall i | 0 <= i < |t| ensures InOrder(t, i) {
      if i < |st| { assert InOrder(st, i); }
    }
  }

  ghost predicate InPrefixes(s: State, all: set<Pipe>) {
    forall p :: p in all ==> p in s.stamps && Prefixes(s.stamps[p])
  }

  class Dist {
    const pipes: Array
    var matching: nat
    var active: nat
    var eligible: nat
    var more: bool
    // The message being sent, or the next one, and how many of its parts have been sent.
    ghost var cur: nat
    ghost var parts: nat

    ghost function View(): Split<Pipe>
      reads this, pipes
    {
      Split(pipes.items, matching, active, eligible)
    }

    ghost predicate Valid()
      reads this, pipes, pipes.Repr
    {
      && pipes.Valid() && Bounded(View())
      && (!more ==> active == eligible)
      && (more <==> parts > 0)
      && forall p :: p in pipes.Repr ==> p.Valid()
    }

    // Multipart messages reach each pipe as prefixes; the matching pipes are up to date, and the
    // passive ones are not.
    ghost predicate Prefixed()
      reads this, pipes, pipes.Repr
      requires Valid()
    {
      && (forall p :: p in pipes.Repr ==> Orderly(p.stamps, cur, parts))
      && (more ==> forall p :: p in pipes.Repr && p in Matching(View()) ==> UpToDate(p.stamps, cur, parts))
      && (more ==> forall p :: p in pipes.Repr && p !in Eligible(View()) ==> !UpToDate(p.stamps, cur, parts))
    }

    constructor ()
      ensures Valid() && Prefixed() && pipes.items == [] && pipes.Repr == {} && !more && fresh(pipes)
      ensures matching == active == eligible == 0 && cur == 0 && parts == 0
    {
      pipes := new Array();
      matching, active, eligible, more := 0, 0, 0, false;
      cur, parts := 0, 0;
    }

    lemma ArrayDistinct()
      requires pipes.Valid() && Bounded(View())
      ensures Ordered(View())
    {
    }

    method Attach(p: Pipe)
      requires Valid() && p !in pipes.Repr && p.Valid()
      modifies this`active, this`eligible, pipes, p`arrayIndex, pipes.Repr`arrayIndex
      ensures Valid() && View() == Attached(old(View()), p, more) && pipes.Repr == old(pipes.Repr) + {p}
      ensures old(Prefixed()) && Orderly(p.stamps, cur, parts) ==> Prefixed()
    {
      hide Orderly, UpToDate, Attached;
      ArrayDistinct();
      AttachedSets(View(), p, more);
      Place(p);
    }

    method Place(p: Pipe)
      requires pipes.Valid() && Bounded(View()) && p !in pipes.Repr && (!more ==> active == eligible)
      modifies this`active, this`eligible, pipes, p`arrayIndex, pipes.Repr`arrayIndex
      ensures pipes.Valid() && View() == Attached(old(View()), p, more) && pipes.Repr == old(pipes.Repr) + {p}
    {
      if more {
        pipes.PushBack(p);
        pipes.Swap(eligible, pipes.Size() - 1);
        eligible := eligible + 1;
      } else {
        pipes.PushBack(p);
        pipes.Swap(active, pipes.Size() - 1);
        active := active + 1;
        eligible := eligible + 1;
      }
    }

    // Exact even for a pipe that left the array, or never was in it, and has a stale index.
    method HasPipe(p: Pipe) returns (r: bool)
      requires Valid()
      ensures r <==> p in pipes.Repr
    {
      var claimed := pipes.Index(p);
      if claimed < 0 || claimed >= pipes.Size() {
        return false;
      }
      r := pipes.items[claimed] == p;
    }

    // All is well unless the pipe is eligible and not active; between messages no pipe is.
    method Match(p: Pipe)
      requires Valid() && p in pipes.Repr
      modifies this`matching, pipes`items, pipes.Repr`arrayIndex
      ensures pipes.Valid() && View() == Matched(old(View()), old(p.arrayIndex))
      ensures !(active <= old(p.arrayIndex) < eligible) ==> Valid()
      ensures old(Prefixed()) && !more ==> Valid() && Prefixed()
    {
      hide Matched, Orderly, UpToDate;
      ArrayDistinct();
      if !(active <= p.arrayIndex < eligible) {
        MatchedSets(View(), p.arrayIndex);
      }
      LiftEligible(p);
    }

    method LiftEligible(p: Pipe)
      requires pipes.Valid() && Bounded(View()) && p in pipes.Repr
      modifies this`matching, pipes`items, pipes.Repr`arrayIndex
      ensures pipes.Valid() && View() == Matched(old(View()), old(p.arrayIndex))
    {
      if pipes.Index(p) < matching {
        return;
      }
      if pipes.Index(p) >= eligible {
        return;
      }
      pipes.Swap(pipes.Index(p), matching);
      matching := matching + 1;
    }

    method Unmatch()
      requires Valid()
      modifies this`matching
      ensures Valid() && View() == old(View()).(matching := 0)
      ensures old(Prefixed()) ==> Prefixed()
    {
      matching := 0;
    }

    // All is well if and only if all eligible pipes are active, as they are between messages.
    method ReverseMatch()
      requires Valid()
      modifies this`matching, pipes`items, pipes.Repr`arrayIndex
      ensures pipes.Valid() && View() == Reversed(old(View()))
      ensures active == eligible ==> Valid()
      ensures Bounded(View()) && Active(View()) == old(Active(View())) <==> active == eligible
      ensures old(Prefixed()) && !more ==> Valid() && Prefixed()
    {
      hide Orderly, UpToDate, Reversed;
      ArrayDistinct();
      ReversedSets(View());
      ReversedIff(View());
      Reverse();
    }

    // The two ranges of swaps may overlap.
    method Reverse()
      requires pipes.Valid() && matching <= eligible <= |pipes.items|
      modifies this`matching, pipes`items, pipes.Repr`arrayIndex
      ensures pipes.Valid() && View() == Reversed(old(View()))
    {
      hide Reversing;
      ghost var goal := Reversing(pipes.items, 0, matching, eligible);
      var prevMatching := matching;
      matching := 0;
      var i := prevMatching;
      while i < eligible
        invariant pipes.Valid() && matching == i - prevMatching && Towards(pipes.items, matching, i, eligible, goal)
      {
        TowardsStep(pipes.items, matching, i, eligible, goal);
        Lift(i);
        i := i + 1;
      }
      TowardsEnd(pipes.items, matching, eligible, goal);
    }

    method Lift(i: nat)
      requires pipes.Valid() && matching < |pipes.items| && i < |pipes.items|
      modifies this`matching, pipes`items, pipes.Repr`arrayIndex
      ensures pipes.Valid() && pipes.items == Swapped(old(pipes.items), i, old(matching))
      ensures matching == old(matching) + 1
    {
      pipes.Swap(i, matching);
      matching := matching + 1;
    }

    method PipeTerminated(p: Pipe)
      requires Valid() && p in pipes.Repr
      modifies this`matching, this`active, this`eligible, pipes, pipes.Repr`arrayIndex
      ensures Valid() && View() == Terminated(old(View()), old(p.arrayIndex)) && pipes.Repr == old(pipes.Repr) - {p}
      ensures old(Prefixed()) ==> Prefixed()
    {
      ArrayDistinct();
      TerminatedSets(View(), p.arrayIndex);
      Remove(p);
    }

    method Remove(p: Pipe)
      requires pipes.Valid() && Bounded(View()) && p in pipes.Repr
      modifies this`matching, this`active, this`eligible, pipes, pipes.Repr`arrayIndex
      ensures pipes.Valid() && View() == Terminated(old(View()), old(p.arrayIndex))
      ensures pipes.Repr == old(pipes.Repr) - {p}
    {
      Leave(p);
      pipes.Erase(p);
    }

    // Out of every class, in the order of the cursors.
    method Leave(p: Pipe)
      requires pipes.Valid() && Bounded(View()) && p in pipes.Repr
      modifies this`matching, this`active, this`eligible, pipes`items, pipes.Repr`arrayIndex
      ensures pipes.Valid() && View() == Passive(old(View()), old(p.arrayIndex)).0
      ensures p.arrayIndex == Passive(old(View()), old(p.arrayIndex)).1
    {
      LeaveMatching(p);
      LeaveActive(p);
      LeaveEligible(p);
    }

    // One conditional swap each.
    method LeaveMatching(p: Pipe)
      requires pipes.Valid() && Bounded(View()) && p in pipes.Repr
      modifies this`matching, pipes`items, pipes.Repr`arrayIndex
      ensures pipes.Valid() && View() == OutOfMatching(old(View()), old(p.arrayIndex)).0
      ensures p.arrayIndex == OutOfMatching(old(View()), old(p.arrayIndex)).1
    {
      if pipes.Index(p) < matching {
        pipes.Swap(pipes.Index(p), matching - 1);
        matching := matching - 1;
      }
    }

    method LeaveActive(p: Pipe)
      requires pipes.Valid() && Bounded(View()) && p in pipes.Repr && p.arrayIndex >= matching
      modifies this`active, pipes`items, pipes.Repr`arrayIndex
      ensures pipes.Valid() && View() == OutOfActive(old(View()), old(p.arrayIndex)).0
      ensures p.arrayIndex == OutOfActive(old(View()), old(p.arrayIndex)).1
    {
      if pipes.Index(p) < active {
        pipes.Swap(pipes.Index(p), active - 1);
        active := active - 1;
      }
    }

    method LeaveEligible(p: Pipe)
      requires pipes.Valid() && Bounded(View()) && p in pipes.Repr && p.arrayIndex >= active
      modifies this`eligible, pipes`items, pipes.Repr`arrayIndex
      ensures pipes.Valid() && View() == OutOfEligible(old(View()), old(p.arrayIndex)).0
      ensures p.arrayIndex == OutOfEligible(old(View()), old(p.arrayIndex)).1
    {
      if pipes.Index(p) < eligible {
        pipes.Swap(pipes.Index(p), eligible - 1);
        eligible := eligible - 1;
      }
    }

    // A matching pipe that has parts of the message under way, and another pipe that is passive.
    ghost predicate Displaces(p: Pipe)
      reads this, pipes, p
    {
      more && p.arrayIndex < matching && eligible < |pipes.items|
    }

    // The pipe has room again.  It should be passive, and then only its own class changes (see
    // ActivatedIff); but if a socket wrote to it past the distributor, it may be active.  The
    // prefixes stay if and only if it does not lose its place to a passive pipe.
    method Activate(p: Pipe)
      requires Valid() && p in pipes.Repr
      modifies this`active, this`eligible, pipes`items, pipes.Repr`arrayIndex
      ensures Valid() && View() == Activated(old(View()), old(p.arrayIndex), more)
      ensures old(Prefixed()) ==> (Prefixed() <==> !old(Displaces(p)))
    {
      hide Orderly, UpToDate, Activated, Front;
      ArrayDistinct();
      if eligible < |pipes.items| {
        FrontAt(pipes.items, eligible, eligible);
        ActivatedSets(View(), p.arrayIndex, more);
      } else {
        ActivatedNone(View(), p.arrayIndex, more);
      }
      ghost var k, q := p.arrayIndex, if eligible < |pipes.items| then pipes.items[eligible] else p;
      assert eligible < |pipes.items| ==> q in pipes.Repr && q !in Eligible(View());
      Raise(p);
      assert more && k < matching && old(eligible) < |pipes.items| ==> q in Matching(View());
    }

    method Raise(p: Pipe)
      requires pipes.Valid() && Bounded(View()) && p in pipes.Repr && (!more ==> active == eligible)
      modifies this`active, this`eligible, pipes`items, pipes.Repr`arrayIndex
      ensures pipes.Valid() && View() == Activated(old(View()), old(p.arrayIndex), more)
    {
      if eligible < pipes.Size() {
        pipes.Swap(pipes.Index(p), eligible);
        eligible := eligible + 1;
      }
      if !more && active < pipes.Size() {
        pipes.Swap(eligible - 1, active);
        active := active + 1;
      }
    }

    // ------------------------------------------------------------ sending

    // A failed write makes the pipe passive.
    method Fail(p: Pipe)
      requires pipes.Valid() && Bounded(View()) && p in pipes.Repr && p.arrayIndex < matching
      modifies this`matching, this`active, this`eligible, pipes`items, pipes.Repr`arrayIndex
      ensures pipes.Valid() && View() == Passive(old(View()), old(p.arrayIndex)).0
      ensures forall q :: q in pipes.Repr ==>
                (q.arrayIndex < old(p.arrayIndex) <==> old(q.arrayIndex) < old(p.arrayIndex))
      ensures forall q :: q in pipes.Repr ==>
                (q.arrayIndex < matching <==> old(q.arrayIndex) < old(matching) && q != p)
    {
      hide Passive;
      ArrayDistinct();
      OldIndex();
      PassiveSets(View(), p.arrayIndex);
      PassiveKeeps(View(), p.arrayIndex);
      Demote(p);
      OldIndex();
    }

    method Demote(p: Pipe)
      requires pipes.Valid() && Bounded(View()) && p in pipes.Repr && p.arrayIndex < matching
      modifies this`matching, this`active, this`eligible, pipes`items, pipes.Repr`arrayIndex
      ensures pipes.Valid() && View() == Passive(old(View()), old(p.arrayIndex)).0
    {
      FailMatching(p);
      FailActive(p);
      FailEligible(p);
    }

    method FailMatching(p: Pipe)
      requires pipes.Valid() && Bounded(View()) && p in pipes.Repr && p.arrayIndex < matching
      modifies this`matching, pipes`items, pipes.Repr`arrayIndex
      ensures pipes.Valid() && View() == OutOfMatching(old(View()), old(p.arrayIndex)).0
      ensures p.arrayIndex == matching
    {
      pipes.Swap(pipes.Index(p), matching - 1);
      matching := matching - 1;
    }

    method FailActive(p: Pipe)
      requires pipes.Valid() && Bounded(View()) && p in pipes.Repr && matching <= p.arrayIndex < active
      modifies this`active, pipes`items, pipes.Repr`arrayIndex
      ensures pipes.Valid() && View() == OutOfActive(old(View()), old(p.arrayIndex)).0
      ensures p.arrayIndex == active
    {
      pipes.Swap(pipes.Index(p), active - 1);
      active := active - 1;
    }

    method FailEligible(p: Pipe)
      requires pipes.Valid() && Bounded(View()) && p in pipes.Repr && p.arrayIndex == active < eligible
      modifies this`eligible, pipes`items, pipes.Repr`arrayIndex
      ensures pipes.Valid() && View() == OutOfEligible(old(View()), old(p.arrayIndex)).0
      ensures p.arrayIndex == eligible
    {
      pipes.Swap(active, eligible - 1);
      eligible := eligible - 1;
    }

    method Write(p: Pipe, b: Body) returns (ok: bool)
      requires pipes.Valid() && Bounded(View()) && p in pipes.Repr && p.Valid() && p.arrayIndex < matching
      modifies this`matching, this`active, this`eligible, pipes`items, pipes.Repr`arrayIndex
      modifies p`out, p`stamps, p`flushed, p`answers
      ensures pipes.Valid() && p.Valid() && (old(p.Willing()) ==> ok) && (old(p.Unwilling()) ==> !ok)
      ensures if ok then View() == old(View()) && Got(p, b, Stamp(cur, parts))
              else View() == Passive(old(View()), old(p.arrayIndex)).0 && Kept(p)
      ensures forall q :: q in pipes.Repr ==>
                (q.arrayIndex < old(p.arrayIndex) <==> old(q.arrayIndex) < old(p.arrayIndex))
      ensures ok ==> forall q :: q in pipes.Repr ==> q.arrayIndex == old(q.arrayIndex)
      ensures !ok ==> forall q :: q in pipes.Repr ==>
                (q.arrayIndex < matching <==> old(q.arrayIndex) < old(matching) && q != p)
    {
      ok := p.Write(b, Stamp(cur, parts));
      if !ok {
        Fail(p);
        return;
      }
      if !b.more {
        p.Flush();
      }
    }

    // The loop of distribute at `i`, which began with `n` pipes matching and the records taken.
    ghost predicate Halfway(rs: map<Pipe, Rec>, n: nat, i: nat, b: Body)
      reads this, pipes`Repr, pipes.Repr
    {
      && rs.Keys == pipes.Repr
      && forall p :: p in pipes.Repr ==> p.Valid() && Progress(p, rs[p], i, matching, n, b, Stamp(cur, parts))
    }

    // Write to every matching pipe.  A failed write permutes the rest of the array, but each
    // matching pipe is tried exactly once.
    method WriteAll(b: Body) returns (failed: nat, ghost tried: seq<Pipe>)
      requires Valid()
      modifies this`matching, this`active, this`eligible, pipes`items, pipes.Repr
      ensures pipes.Valid() && Rest(old(View()), View()) && failed == old(matching) - matching
      ensures Distinct(tried) && Front(tried, |tried|) == Matching(old(View()))
      ensures Delivered(old(Records(pipes.Repr)), matching, b, Stamp(cur, parts), old(matching))
    {
      hide Rest, Tried, Halfway;
      ghost var v, rs := View(), Records(pipes.Repr);
      failed, tried := 0, [];
      var i := 0;
      Started(b);
      while i < matching
        invariant pipes.Valid() && Rest(v, View()) && i <= matching && failed == v.matching - matching
        invariant Tried(tried, v, View(), i) && Halfway(rs, v.matching, i, b)
        decreases matching - i
      {
        var ok;
        ok, tried := Attempt(i, b, v, tried, rs);
        if !ok {
          failed := failed + 1;
        } else {
          i := i + 1;
        }
      }
      TriedAll(tried, v, View());
      Finished(rs, v.matching, b);
    }

    lemma Finished(rs: map<Pipe, Rec>, n: nat, b: Body)
      requires Halfway(rs, n, matching, b)
      ensures Delivered(rs, matching, b, Stamp(cur, parts), n)
    {
    }

    lemma Started(b: Body)
      requires Valid()
      ensures Rest(View(), View()) && Tried([], View(), View(), 0) && Halfway(Records(pipes.Repr), matching, 0, b)
    {
      ArrayDistinct();
      assert Front<Pipe>([], 0) == {} && Front(View().items, 0) == {};
    }

    method Attempt(i: nat, b: Body, ghost v: Split<Pipe>, ghost tried: seq<Pipe>, ghost rs: map<Pipe, Rec>)
      returns (ok: bool, ghost tried': seq<Pipe>)
      requires pipes.Valid() && Rest(v, View()) && i < matching && Tried(tried, v, View(), i)
      requires Halfway(rs, v.matching, i, b)
      modifies this`matching, this`active, this`eligible, pipes`items, pipes.Repr
      ensures pipes.Valid() && Rest(v, View()) && matching == old(matching) - (if ok then 0 else 1)
      ensures Tried(tried', v, View(), if ok then i + 1 else i) && Halfway(rs, v.matching, if ok then i + 1 else i, b)
    {
      hide Tried;
      TriedStep(tried, v, View(), i);
      RestStep(v, View(), i);
      tried' := tried + [pipes.items[i]];
      ok := WriteNext(i, b, rs, v.matching);
    }

    method WriteNext(i: nat, b: Body, ghost rs: map<Pipe, Rec>, ghost n: nat) returns (ok: bool)
      requires pipes.Valid() && Bounded(View()) && i < matching && Halfway(rs, n, i, b)
      modifies this`matching, this`active, this`eligible, pipes`items, pipes.Repr
      ensures pipes.Valid() && View() == if ok then old(View()) else Passive(old(View()), i).0
      ensures Halfway(rs, n, if ok then i + 1 else i, b)
    {
      hide Passive;
      var p := pipes.items[i];
      assert Progress(p, rs[p], i, matching, n, b, Stamp(cur, parts));
      ok := Write(p, b);
      forall q | q in pipes.Repr
        ensures q.Valid() && Progress(q, rs[q], if ok then i + 1 else i, matching, n, b, Stamp(cur, parts))
      {
        assert old(Progress(q, rs[q], i, matching, n, b, Stamp(cur, parts)));
      }
    }

    /**
      Give the message to the matching pipes and let go of it.  `h` handles are on its content
      before; afterwards it is held by the others and by one copy per successful write, and it
      is freed, once, if that leaves none.
     */
    method Distribute(msg: Msg, ghost h: int) returns (ghost w: Body, ghost tried: seq<Pipe>)
      requires Valid() && Counts(msg.b, h) && msg.b.kind != Closed
      modifies this`matching, this`active, this`eligible, pipes`items, pipes.Repr, msg, msg.b.Held()
      ensures pipes.Valid() && Rest(old(View()), View()) && msg.b == EMPTY
      ensures w == old(msg.b) || (old(msg.b).IsLong() && w == old(msg.b).(shared := true))
      ensures old(msg.b).IsLong() ==> Left(w, h - 1 + matching)
      ensures Distinct(tried) && Front(tried, |tried|) == Matching(old(View()))
      ensures Delivered(old(Records(pipes.Repr)), matching, w, Stamp(cur, parts), old(matching))
    {
      hide Rest, Distinct, Front, Matching, Delivered;
      if matching == 0 {
        w, tried := Discard(msg, h);
      } else if msg.b.kind == Vsm {
        w, tried := DistributeVsm(msg);
      } else {
        w, tried := DistributeShared(msg, h);
      }
    }

    // Nobody is to get the message.
    method Discard(msg: Msg, ghost h: int) returns (ghost w: Body, ghost tried: seq<Pipe>)
      requires Valid() && Counts(msg.b, h) && msg.b.kind != Closed && matching == 0
      modifies msg, msg.b.Held()
      ensures Rest(View(), View()) && msg.b == EMPTY && w == old(msg.b)
      ensures old(msg.b).IsLong() ==> Left(w, h - 1)
      ensures Distinct(tried) && Front(tried, |tried|) == Matching(View())
      ensures Delivered(old(Records(pipes.Repr)), matching, w, Stamp(cur, parts), 0)
    {
      hide Rest, Distinct, Front, Matching;
      w, tried := msg.b, [];
      NoneTried();
      var rc := msg.Close(h);
      assert rc == 0;
      msg.Init();
    }

    method DistributeVsm(msg: Msg) returns (ghost w: Body, ghost tried: seq<Pipe>)
      requires Valid() && msg.b.kind == Vsm
      modifies this`matching, this`active, this`eligible, pipes`items, pipes.Repr, msg
      ensures pipes.Valid() && Rest(old(View()), View()) && msg.b == EMPTY && w == old(msg.b)
      ensures Distinct(tried) && Front(tried, |tried|) == Matching(old(View()))
      ensures Delivered(old(Records(pipes.Repr)), matching, w, Stamp(cur, parts), old(matching))
    {
      hide Rest, Distinct, Front, Matching;
      w := msg.b;
      var failed;
      failed, tried := WriteAll(msg.b);
      msg.Init();
    }

    lemma NoneTried()
      requires Valid() && matching == 0
      ensures Rest(View(), View()) && Distinct<Pipe>([]) && Front<Pipe>([], 0) == Matching(View())
    {
      ArrayDistinct();
    }

    method DistributeShared(msg: Msg, ghost h: int) returns (ghost w: Body, ghost tried: seq<Pipe>)
      requires Valid() && Counts(msg.b, h) && matching > 0
      modifies this`matching, this`active, this`eligible, pipes`items, pipes.Repr, msg, msg.b.Held()
      ensures pipes.Valid() && Rest(old(View()), View()) && msg.b == EMPTY
      ensures w == old(msg.b) || (old(msg.b).IsLong() && w == old(msg.b).(shared := true))
      ensures old(msg.b).IsLong() ==> Left(w, h - 1 + matching)
      ensures Distinct(tried) && Front(tried, |tried|) == Matching(old(View()))
      ensures Delivered(old(Records(pipes.Repr)), matching, w, Stamp(cur, parts), old(matching))
    {
      ghost var n := matching;
      msg.AddRefs(matching - 1, h);
      w := msg.b;
      tried := Spread(msg, h + n - 1);
    }

    // `h` counts the copies to be written as well.
    method Spread(msg: Msg, ghost h: int) returns (ghost tried: seq<Pipe>)
      requires Valid() && Counts(msg.b, h) && (msg.b.IsLong() ==> matching <= h)
      modifies this`matching, this`active, this`eligible, pipes`items, pipes.Repr, msg, msg.b.Held()
      ensures pipes.Valid() && Rest(old(View()), View()) && msg.b == EMPTY
      ensures old(msg.b).IsLong() ==> Left(old(msg.b), h - old(matching) + matching)
      ensures Distinct(tried) && Front(tried, |tried|) == Matching(old(View()))
      ensures Delivered(old(Records(pipes.Repr)), matching, old(msg.b), Stamp(cur, parts), old(matching))
    {
      hide Rest, Matching, Front, Distinct;
      var failed;
      failed, tried := WriteAll(msg.b);
      Detach(msg, failed, h);
    }

    // Give back the references of the failed writes; the others are used up.
    static method Detach(msg: Msg, failed: nat, ghost h: int)
      requires Counts(msg.b, h) && (msg.b.IsLong() ==> failed <= h)
      modifies msg, msg.b.Held()
      ensures msg.b == EMPTY && (old(msg.b).IsLong() ==> Left(old(msg.b), h - failed))
    {
      if failed > 0 {
        var _ := msg.RmRefs(failed, h);
      }
      msg.Init();
    }

    // The delivery keeps the prefixes, one part further on.
    method Deliver(msg: Msg, ghost h: int) returns (ghost w: Body, ghost tried: seq<Pipe>)
      requires Valid() && Counts(msg.b, h) && msg.b.kind != Closed
      modifies this`matching, this`active, this`eligible, pipes`items, pipes.Repr, msg, msg.b.Held()
      ensures pipes.Valid() && Rest(old(View()), View()) && msg.b == EMPTY
      ensures w == old(msg.b) || (old(msg.b).IsLong() && w == old(msg.b).(shared := true))
      ensures old(msg.b).IsLong() ==> Left(w, h - 1 + matching)
      ensures Distinct(tried) && Front(tried, |tried|) == Matching(old(View()))
      ensures Delivered(old(Records(pipes.Repr)), matching, w, Stamp(cur, parts), old(matching))
      ensures forall p :: p in pipes.Repr ==> p.Valid()
      ensures old(Prefixed()) ==> Further()
    {
      hide Orderly, UpToDate, Rest, Front, Distinct;
      OldIndex();
      w, tried := Distribute(msg, h);
      RestCounts(old(View()), View());
      OldIndex();
      if old(Prefixed()) {
        Advanced(w);
      }
    }

    // A delivery to pipes that matched before brings the prefixes one part on.
    twostate lemma Advanced(new w: Body)
      requires old(Valid()) && pipes.Valid() && pipes.Repr == old(pipes.Repr) && cur == old(cur) && parts == old(parts)
      requires old(forall p :: p in pipes.Repr ==> Orderly(p.stamps, cur, parts))
      requires old(more ==> forall p :: p in pipes.Repr && p.arrayIndex < matching ==> UpToDate(p.stamps, cur, parts))
      requires Delivered(old(Records(pipes.Repr)), matching, w, Stamp(cur, parts), old(matching))
      requires forall p :: p in pipes.Repr && p.arrayIndex < matching ==> old(p.arrayIndex) < old(matching)
      ensures Further()
    {
      hide Orderly, UpToDate;
      forall p | p in pipes.Repr
        ensures Orderly(p.stamps, cur, parts + 1) && (UpToDate(p.stamps, cur, parts + 1) <==> p.arrayIndex < matching)
      {
        assert Progress(p, old(Records(pipes.Repr))[p], matching, matching, old(matching), w, Stamp(cur, parts));
        if p.arrayIndex < matching {
          OrderlyPush(old(p.stamps), cur, parts);
        } else {
          OrderlyLater(p.stamps, cur, parts);
        }
      }
    }

    // Position and class of a pipe agree.
    lemma OldIndex()
      requires pipes.Valid() && Bounded(View())
      ensures forall p :: p in pipes.Repr ==> (p in Matching(View()) <==> p.arrayIndex < matching)
      ensures forall p :: p in pipes.Repr ==> (p in Active(View()) <==> p.arrayIndex < active)
      ensures forall p :: p in pipes.Repr ==> (p in Eligible(View()) <==> p.arrayIndex < eligible)
      ensures Matching(View()) <= Active(View()) <= Eligible(View()) <= pipes.Repr
    {
    }

    // One part on: the pipes still matching have it, and no other has.
    ghost predicate Further()
      reads this, pipes, pipes.Repr
    {
      forall p :: p in pipes.Repr ==>
        Orderly(p.stamps, cur, parts + 1) && (UpToDate(p.stamps, cur, parts + 1) <==> p.arrayIndex < matching)
    }

    // After a last part all eligible pipes become active.
    method SendToMatching(msg: Msg, ghost h: int) returns (ghost w: Body, ghost tried: seq<Pipe>)
      requires Valid() && Counts(msg.b, h) && msg.b.kind != Closed
      modifies this, pipes`items, pipes.Repr, msg, msg.b.Held()
      ensures Valid() && msg.b == EMPTY && more == old(msg.b.more)
      ensures if more then cur == old(cur) && parts == old(parts) + 1 else cur == old(cur) + 1 && parts == 0
      ensures Ended(old(View()), View(), more)
      ensures w == old(msg.b) || (old(msg.b).IsLong() && w == old(msg.b).(shared := true))
      ensures old(msg.b).IsLong() ==> Left(w, h - 1 + matching)
      ensures Distinct(tried) && Front(tried, |tried|) == Matching(old(View()))
      ensures Delivered(old(Records(pipes.Repr)), matching, w, Stamp(old(cur), old(parts)), old(matching))
      ensures old(Prefixed()) ==> Prefixed()
    {
      hide Ended, Rest, Front, Distinct, Orderly, UpToDate, Delivered;
      var msgMore := msg.b.more;
      w, tried := Deliver(msg, h);
      ghost var c := View();
      RestCounts(old(View()), c);
      EndPart(msgMore);
      RestEnded(old(View()), c, View(), msgMore);
    }

    method EndPart(msgMore: bool)
      requires pipes.Valid() && Bounded(View()) && forall p :: p in pipes.Repr ==> p.Valid()
      modifies this`active, this`more, this`cur, this`parts
      ensures Valid() && more == msgMore
      ensures active == if more then old(active) else eligible
      ensures if more then cur == old(cur) && parts == old(parts) + 1 else cur == old(cur) + 1 && parts == 0
      ensures old(Further()) ==> Prefixed()
    {
      hide Orderly, UpToDate, Front;
      OldIndex();
      if Further() {
        forall p | p in pipes.Repr ensures Orderly(p.stamps, cur + 1, 0) { OrderlyLater(p.stamps, cur, parts + 1); }
      }
      if !msgMore {
        active := eligible;
      }
      more := msgMore;
      if msgMore {
        parts := parts + 1;
      } else {
        cur, parts := cur + 1, 0;
      }
    }

    // Every active pipe gets the part.  The prefixes hold on if a message that has begun is
    // going to all active pipes already.
    method SendToAll(msg: Msg, ghost h: int) returns (ghost w: Body, ghost tried: seq<Pipe>)
      requires Valid() && Counts(msg.b, h) && msg.b.kind != Closed
      modifies this, pipes`items, pipes.Repr, msg, msg.b.Held()
      ensures Valid() && msg.b == EMPTY && more == old(msg.b.more)
      ensures if more then cur == old(cur) && parts == old(parts) + 1 else cur == old(cur) + 1 && parts == 0
      ensures Ended(old(View()).(matching := old(active)), View(), more)
      ensures Bounded(View()) && Eligible(View()) == old(Eligible(View())) - (old(Active(View())) - Matching(View()))
      ensures w == old(msg.b) || (old(msg.b).IsLong() && w == old(msg.b).(shared := true))
      ensures old(msg.b).IsLong() ==> Left(w, h - 1 + matching)
      ensures Distinct(tried) && Front(tried, |tried|) == Active(old(View()))
      ensures Delivered(old(Records(pipes.Repr)), matching, w, Stamp(old(cur), old(parts)), old(active))
      ensures old(Prefixed()) && (old(more) ==> old(matching) == old(active)) ==> Prefixed()
    {
      hide Orderly, UpToDate, Ended, Front, Distinct, Left, Counts, Delivered;
      matching := active;
      ghost var v := View();
      w, tried := SendToMatching(msg, h);
      EndedSets(v, View(), more);
    }

    // A new part of no bytes goes to all.
    method SendNew(m: bool) returns (ghost w: Body)
      requires Valid()
      modifies this, pipes`items, pipes.Repr
      ensures Valid() && more == m && pipes.Repr == old(pipes.Repr)
      ensures if more then cur == old(cur) && parts == old(parts) + 1 else cur == old(cur) + 1 && parts == 0
      ensures w == EMPTY.(more := m) && Ended(old(View()).(matching := old(active)), View(), more)
      ensures Eligible(View()) == old(Eligible(View())) - (old(Active(View())) - Matching(View()))
      ensures Delivered(old(Records(pipes.Repr)), matching, w, Stamp(old(cur), old(parts)), old(active))
      ensures old(Prefixed()) && (old(more) ==> old(matching) == old(active)) ==> Prefixed()
    {
      hide Orderly, UpToDate, Ended, Front, Left, Distinct, Delivered;
      var msg := new Msg();
      msg.b := EMPTY.(more := m);
      ghost var tried;
      w, tried := SendToAll(msg, 0);
    }

    // A pipe attached in the middle of a message waits for its end, and if it has room gets the
    // next message that is sent to all.
    method LateJoin(p: Pipe) returns (ghost w: Body)
      requires Valid() && more && p !in pipes.Repr && p.Valid() && p.Willing()
      modifies this, pipes, p, pipes.Repr
      ensures Valid() && pipes.Repr == old(pipes.Repr) + {p}
      ensures p.out == old(p.out) + [w] && p.flushed == |p.out| && p.stamps == old(p.stamps) + [Stamp(old(cur) + 1, 0)]
    {
      hide Dist.Valid;
      JoinAttach(p);
      PassBy(p);
      w := Reach(p);
    }

    method JoinAttach(p: Pipe)
      requires Valid() && more && p !in pipes.Repr && p.Valid()
      modifies this, pipes, p`arrayIndex, pipes.Repr`arrayIndex
      ensures Valid() && more && pipes.Repr == old(pipes.Repr) + {p} && active <= p.arrayIndex < eligible
      ensures cur == old(cur) && parts == old(parts)
    {
      hide Orderly, UpToDate, Front;
      Attach(p);
      assert pipes.items[old(eligible)] == p;
      OldIndex();
    }

    // A message of one part reaches it.
    method Reach(p: Pipe) returns (ghost w: Body)
      requires Valid() && p in pipes.Repr && p.arrayIndex < active && p.Willing()
      modifies this, pipes`items, pipes.Repr
      ensures Valid() && pipes.Repr == old(pipes.Repr)
      ensures p.out == old(p.out) + [w] && p.flushed == |p.out|
      ensures p.stamps == old(p.stamps) + [Stamp(old(cur), old(parts))]
    {
      hide Orderly, UpToDate, Ended, Front;
      w := SendNew(false);
    }

    // The last part of the message under way passes it by.
    method PassBy(p: Pipe)
      requires Valid() && p in pipes.Repr && active <= p.arrayIndex < eligible && p.Willing()
      modifies this, pipes`items, pipes.Repr
      ensures Valid() && !more && pipes.Repr == old(pipes.Repr) && cur == old(cur) + 1 && parts == 0
      ensures p.arrayIndex < active && p.Willing()
      ensures p.out == old(p.out) && p.flushed == old(p.flushed) && p.stamps == old(p.stamps)
    {
      hide Orderly, UpToDate, Ended, Front;
      OldIndex();
      var w := SendNew(false);
      OldIndex();
    }

    // ------------------------------------------------------------ runs

    ghost function Classed(): Classes
      requires Bounded(View())
      reads this, pipes
    {
      Classes(Matching(View()), Active(View()), Eligible(View()), pipes.Repr, more)
    }

    ghost function Now(all: set<Pipe>): State
      requires Bounded(View())
      reads this, pipes, all
    {
      State(Classed(), cur, parts, map p | p in all :: p.stamps)
    }

    // Every pipe there is, attached or not, has prefixes of messages only.
    ghost predicate Sane(all: set<Pipe>)
      reads this, pipes, pipes.Repr, all
    {
      && Valid() && Prefixed() && pipes.Repr <= all
      && forall p :: p in all ==> p.Valid() && Orderly(p.stamps, cur, parts)
    }

    method Step(e: Event, ghost all: set<Pipe>)
      requires Sane(all) && Permits(Classed(), e) && (e.OnPipe() ==> e.p in all)
      modifies this, pipes, all
      ensures Sane(all) && Steps(old(Now(all)), e, Now(all))
    {
      hide Orderly, UpToDate, Moves, Permits, Matching, Active, Eligible;
      if e.Sends() {
        Send(e, all);
      } else {
        Select(e, all);
      }
    }

    method Select(e: Event, ghost all: set<Pipe>)
      requires Sane(all) && Permits(Classed(), e) && (e.OnPipe() ==> e.p in all) && !e.Sends()
      modifies this`matching, this`active, this`eligible, pipes, all`arrayIndex
      ensures Sane(all) && Moves(old(Classed()), e, Classed())
    {
      hide Orderly, UpToDate, Matching, Active, Eligible;
      match e
      case Attaches(p) => Enter(p);
      case Terminates(p) => Quit(p);
      case Activates(p) => Wake(p);
      case Matches(_) => Rematch(e);
      case Unmatches => Rematch(e);
      case ReverseMatches => Rematch(e);
    }

    method Enter(p: Pipe)
      requires Valid() && p !in pipes.Repr && p.Valid()
      modifies this`active, this`eligible, pipes, p`arrayIndex, pipes.Repr`arrayIndex
      ensures Valid() && Moves(old(Classed()), Attaches(p), Classed())
      ensures old(Prefixed()) && Orderly(p.stamps, cur, parts) ==> Prefixed()
    {
      hide Orderly, UpToDate, Attached, Matching, Active, Eligible;
      ArrayDistinct();
      AttachedSets(View(), p, more);
      Attach(p);
    }

    method Quit(p: Pipe)
      requires Valid() && p in pipes.Repr
      modifies this`matching, this`active, this`eligible, pipes, pipes.Repr`arrayIndex
      ensures Valid() && Moves(old(Classed()), Terminates(p), Classed())
      ensures old(Prefixed()) ==> Prefixed()
    {
      hide Orderly, UpToDate, Terminated, Matching, Active, Eligible;
      ArrayDistinct();
      TerminatedSets(View(), p.arrayIndex);
      PipeTerminated(p);
    }

    method Wake(p: Pipe)
      requires Valid() && Permits(Classed(), Activates(p))
      modifies this`active, this`eligible, pipes`items, pipes.Repr`arrayIndex
      ensures Valid() && Moves(old(Classed()), Activates(p), Classed())
      ensures old(Prefixed()) ==> Prefixed()
    {
      hide Orderly, UpToDate, Activated, Front, Moves;
      OldIndex();
      Cursors();
      Waking(p);
      Activate(p);
    }

    lemma Waking(p: Pipe)
      requires Valid() && p in pipes.Repr
      ensures var d := Activated(View(), p.arrayIndex, more);
              && Bounded(d)
              && Moves(Classed(), Activates(p), Classes(Matching(d), Active(d), Eligible(d), pipes.Repr, more))
    {
      hide Activated, Front;
      ArrayDistinct();
      OldIndex();
      Cursors();
      if eligible < |pipes.items| {
        ActivatedSets(View(), p.arrayIndex, more);
        var c, d, q := Classed(), Activated(View(), p.arrayIndex, more), pipes.items[eligible];
        assert q in pipes.Repr - Eligible(View());
        assert Classes(Matching(d), Active(d), Eligible(d), pipes.Repr, more) ==
               if p in c.eligible then Lifted(Traded(c, p, q), q) else Lifted(c, p);
      } else {
        ActivatedNone(View(), p.arrayIndex, more);
      }
    }

    // The cursors are equal when the classes are.
    lemma Cursors()
      requires Valid()
      ensures Matching(View()) == Active(View()) <==> matching == active
      ensures Eligible(View()) == pipes.Repr <==> eligible == |pipes.items|
    {
      OldIndex();
      if matching < active { assert pipes.items[matching] in Active(View()); }
      if eligible < |pipes.items| { assert pipes.items[eligible] in pipes.Repr; }
    }

    method Rematch(e: Event)
      requires Valid() && Permits(Classed(), e) && (e.Matches? || e.Unmatches? || e.ReverseMatches?)
      modifies this`matching, pipes`items, pipes.Repr`arrayIndex
      ensures Valid() && Moves(old(Classed()), e, Classed())
      ensures old(Prefixed()) ==> Prefixed()
    {
      hide Orderly, UpToDate, Matched, Reversed, Reversing;
      ArrayDistinct();
      OldIndex();
      match e
      case Matches(p) =>
        MatchedSets(View(), p.arrayIndex);
        Match(p);
      case Unmatches => Unmatch();
      case ReverseMatches =>
        ReversedSets(View());
        ReverseMatch();
    }

    method Send(e: Event, ghost all: set<Pipe>)
      requires Sane(all) && Permits(Classed(), e) && e.Sends()
      modifies this, pipes`items, pipes.Repr
      ensures Sane(all) && Steps(old(Now(all)), e, Now(all))
    {
      hide Orderly, Matching, Active, Eligible, Moves, Permits, Dist.Prefixed;
      SendSanely(e, all);
    }

    method SendSanely(e: Event, ghost all: set<Pipe>)
      requires Sane(all) && Permits(Classed(), e) && e.Sends()
      modifies this, pipes`items, pipes.Repr
      ensures Sane(all) && pipes.Repr == old(pipes.Repr) && Moves(old(Classed()), e, Classed())
      ensures if e.last then cur == old(cur) + 1 && parts == 0 else cur == old(cur) && parts == old(parts) + 1
      ensures forall p :: p in all ==>
                p.stamps == old(p.stamps) + if p in Matching(View()) then [Stamp(old(cur), old(parts))] else []
    {
      forall p | p in all ensures Orderly(p.stamps, cur, parts + 1) && Orderly(p.stamps, cur + 1, 0) {
        OrderlyLater(p.stamps, cur, parts);
      }
      hide Orderly, UpToDate, Matching, Active, Eligible, Moves, Permits, Dist.Prefixed;
      SendSmall(e);
    }

    method SendSmall(e: Event)
      requires Valid() && Prefixed() && Permits(Classed(), e) && e.Sends()
      modifies this, pipes`items, pipes.Repr
      ensures Valid() && Prefixed() && pipes.Repr == old(pipes.Repr) && Moves(old(Classed()), e, Classed())
      ensures if e.last then cur == old(cur) + 1 && parts == 0 else cur == old(cur) && parts == old(parts) + 1
      ensures Matching(View()) <= pipes.Repr && forall p :: p in pipes.Repr ==>
                p.stamps == old(p.stamps) + if p in Matching(View()) then [Stamp(old(cur), old(parts))] else []
    {
      hide Orderly, UpToDate, Ended, Front, Distinct;
      Cursors();
      ghost var v := if e.SendsToAll? then View().(matching := active) else View();
      if e.SendsToAll? {
        var w := SendNew(!e.last);
      } else {
        var msg := new Msg();
        msg.b := EMPTY.(more := !e.last);
        var w, tried := SendToMatching(msg, 0);
      }
      EndedSets(v, View(), more);
      OldIndex();
    }

    /**
      Any run is a run of the machine of classes, and after every event each pipe there is has
      prefixes of messages only.
     */
    method Run(es: seq<Event>, ghost all: set<Pipe>) returns (ghost path: seq<State>)
      requires Sane(all) && forall i :: 0 <= i < |es| && es[i].OnPipe() ==> es[i].p in all
      modifies this, pipes, all
      ensures Sane(all) && IsRun(Steps, path, es) && path[0] == old(Now(all)) && path[|es|] == Now(all)
      ensures forall i :: 0 <= i <= |es| ==> InPrefixes(path[i], all)
    {
      hide IsRun, Moves, Permits, InPrefixes, Dist.Prefixed, Orderly, Matching, Active, Eligible;
      path := [Now(all)];
      RunNone(Steps, Now(all), es);
      Sanely(all);
      for i := 0 to |es|
        invariant |path| == i + 1 && IsRun(Steps, path, es[..i]) && path[0] == old(Now(all))
        invariant Sane(all) && path[i] == Now(all) && forall k :: 0 <= k <= i ==> InPrefixes(path[k], all)
      {
        var ok := Permitted(es[i]);
        if ok {
          Step(es[i], all);
        }
        Sanely(all);
        RunOn(Steps, path, es, i, Now(all));
        path := path + [Now(all)];
      }
      assert es[..|es|] == es;
    }

    lemma Sanely(all: set<Pipe>)
      requires Sane(all)
      ensures InPrefixes(Now(all), all)
    {
    }

    method Permitted(e: Event) returns (r: bool)
      requires Valid()
      ensures r == Permits(Classed(), e)
    {
      OldIndex();
      Cursors();
      match e
      case Attaches(p) => var h := HasPipe(p); r := !h;
      case Terminates(p) => r := HasPipe(p);
      case Activates(p) =>
        var h := HasPipe(p);
        r := h && !(more && pipes.Index(p) < matching && eligible < pipes.Size());
      case Matches(p) => var h := HasPipe(p); r := h && !more;
      case Unmatches => r := !more;
      case ReverseMatches => r := !more;
      case SendsToMatching(_) => r := true;
      case SendsToAll(_) => r := more ==> matching == active;
    }
  }

  // A part extends the prefixes on a pipe if and only if the pipe has the part before it.
  lemma PrefixesIff(st: seq<Stamp>, cur: nat, parts: nat)
    requires Orderly(st, cur, parts)
    ensures Prefixes(st + [Stamp(cur, parts)]) <==> parts == 0 || UpToDate(st, cur, parts)
  {
    var t := st + [Stamp(cur, parts)];
    assert Prefixes(t) ==> InOrder(t, |st|);
    if parts == 0 || UpToDate(st, cur, parts) {
      OrderlyPush(st, cur, parts);
    }
  }

  lemma OrderlyLater(st: seq<Stamp>, cur: nat, parts: nat)
    requires Orderly(st, cur, parts)
    ensures Orderly(st, cur, parts + 1) && Orderly(st, cur + 1, 0) && !UpToDate(st, cur, parts + 1)
  {
  }

  // The pipe has been given part `b`, and flushed if that was the last part.
  twostate predicate Got(p: Pipe, new b: Body, at: Stamp)
    reads p
  {
    && p.out == old(p.out) + [b] && p.stamps == old(p.stamps) + [at] && !old(p.Unwilling())
    && p.flushed == if b.more then old(p.flushed) else |p.out|
  }

  twostate predicate Kept(p: Pipe)
    reads p
  {
    p.out == old(p.out) && p.stamps == old(p.stamps) && p.flushed == old(p.flushed)
  }

  // A pipe as it was before a round of writes.
  datatype Rec = Rec(index: int, out: seq<Body>, flushed: nat, stamps: seq<Stamp>, answers: seq<bool>) {
    predicate Willing() {
      answers != [] && answers[0]
    }

    predicate Unwilling() {
      answers != [] && !answers[0]
    }
  }

  ghost function Records(ps: set<Pipe>): map<Pipe, Rec>
    reads ps
  {
    map p | p in ps :: Rec(p.arrayIndex, p.out, p.flushed, p.stamps, p.answers)
  }

  // A round over `tried` pipes of which `n` still match is at `i`: pipe `p` has been written, has
  // not been tried yet, or has failed; a pipe outside the round is as it was.
  ghost predicate Progress(p: Pipe, r: Rec, i: nat, n: nat, tried: nat, b: Body, at: Stamp)
    reads p
  {
    if p.arrayIndex < i then
      && p.out == r.out + [b] && p.stamps == r.stamps + [at] && !r.Unwilling()
      && p.flushed == (if b.more then r.flushed else |p.out|) && r.index < tried
    else
      && p.out == r.out && p.stamps == r.stamps && p.flushed == r.flushed
      && (p.arrayIndex < n ==> p.answers == r.answers && r.index < tried)
      && (p.arrayIndex >= n ==> if r.index < tried then !r.Willing() else p.answers == r.answers)
  }

  // The round is over.  Part `b` went to the pipes that still match, and to no other; of the
  // pipes tried none that had room was passed over, and none that had no room got it.
  ghost predicate Delivered(rs: map<Pipe, Rec>, n: nat, b: Body, at: Stamp, tried: nat)
    reads rs.Keys
  {
    forall p :: p in rs.Keys ==> p.Valid() && Progress(p, rs[p], n, n, tried, b, at)
  }

  /**
    The first part of a message reaches `a`, and finds `b` without room.  Then `a` is activated,
    as it may be after a write past the distributor, and loses its place to `b`.  When `b` has room
    again and is activated too, it gets the second part of a message whose first part it does not
    have.  Every part is sent to all, as xsub_t does.
   */
  method Displaced() returns (d: Dist, a: Pipe, b: Pipe)
    ensures d.Valid() && b in d.pipes.Repr && b.stamps == [Stamp(0, 1)] && !Prefixes(b.stamps)
  {
    hide Dist.Valid;
    d, a, b := HalfSent();
    Displace(d, a, b);
    Rejoin(d, a, b);
    SecondPart(d, b);
    PrefixesIff([], 0, 1);
  }

  method HalfSent() returns (d: Dist, a: Pipe, b: Pipe)
    ensures d.Valid() && d.pipes.Repr == {a, b} && d.View() == Split([a, b], 1, 1, 1) && fresh({d, d.pipes, a, b})
    ensures d.more && d.cur == 0 && d.parts == 1 && b.stamps == []
  {
    hide Orderly, UpToDate;
    a := new Pipe([true], []);
    b := new Pipe([false], []);
    d := AttachTwo(a, b);
    FirstPart(d, a, b);
  }

  method AttachTwo(a: Pipe, b: Pipe) returns (d: Dist)
    requires a != b && a.Valid() && b.Valid()
    modifies a`arrayIndex, b`arrayIndex
    ensures fresh(d) && fresh(d.pipes) && d.Valid() && d.pipes.Repr == {a, b} && d.View() == Split([a, b], 0, 2, 2)
    ensures !d.more && d.cur == 0
  {
    hide Orderly, UpToDate;
    d := new Dist();
    d.Attach(a);
    d.Attach(b);
  }

  method FirstPart(d: Dist, a: Pipe, b: Pipe)
    requires d.Valid() && d.pipes.Repr == {a, b} && d.View() == Split([a, b], 0, 2, 2) && !d.more
    requires a.Willing() && b.Unwilling()
    modifies d, d.pipes`items, d.pipes.Repr
    ensures d.Valid() && d.View() == Split([a, b], 1, 1, 1) && d.more && d.cur == old(d.cur) && d.parts == 1
    ensures b.stamps == old(b.stamps)
  {
    hide Orderly, UpToDate, Rest, Front;
    ghost var v := d.View();
    var w := d.SendNew(true);
    assert a.arrayIndex < d.matching <= b.arrayIndex;
    TwoItems(d.pipes, a, b);
    RestCounts(v.(matching := 2), d.View());
  }

  lemma TwoItems(pipes: Array, a: Pipe, b: Pipe)
    requires pipes.Valid() && pipes.Repr == {a, b} && a.arrayIndex < b.arrayIndex
    ensures pipes.items == [a, b]
  {
    assert pipes.items[0] == a;
    assert pipes.items[1] == b;
    assert pipes.items[|pipes.items| - 1] in pipes.Repr;
  }

  method Displace(d: Dist, a: Pipe, b: Pipe)
    requires d.Valid() && d.pipes.Repr == {a, b} && d.View() == Split([a, b], 1, 1, 1) && d.more
    modifies d`active, d`eligible, d.pipes`items, d.pipes.Repr`arrayIndex
    ensures d.Valid() && d.View() == Split([b, a], 1, 1, 2) && b.arrayIndex == 0
  {
    hide Orderly, UpToDate;
    assert Activated(Split([a, b], 1, 1, 1), 0, true) == Split([b, a], 1, 1, 2);
    d.Activate(a);
    assert d.pipes.items[0] == b;
  }

  // The other side makes room.  With no pipe passive the activation changes nothing.
  method Rejoin(d: Dist, a: Pipe, b: Pipe)
    requires d.Valid() && d.pipes.Repr == {a, b} && d.View() == Split([b, a], 1, 1, 2) && d.more
    modifies d`active, d`eligible, d.pipes`items, d.pipes.Repr`arrayIndex, b`answers
    ensures d.Valid() && d.View() == Split([b, a], 1, 1, 2) && b.arrayIndex == 0 && b.Willing()
  {
    hide Orderly, UpToDate;
    b.answers := [true];
    ActivatedNone(d.View(), b.arrayIndex, true);
    d.Activate(b);
    assert d.pipes.items[0] == b;
  }

  method SecondPart(d: Dist, b: Pipe)
    requires d.Valid() && d.more && b in d.pipes.Repr && b.arrayIndex < d.active && b.Willing()
    modifies d, d.pipes`items, d.pipes.Repr
    ensures d.Valid() && b.stamps == old(b.stamps) + [Stamp(old(d.cur), old(d.parts))]
  {
    hide Orderly, UpToDate, Rest;
    var w := d.SendNew(false);
    assert b.arrayIndex < d.matching;
  }

  // The pipes tried so far: those written, at the front, and those that failed.
  ghost predicate Tried<T>(tried: seq<T>, v: Split<T>, c: Split<T>, i: nat) {
    && Ordered(v) && Ordered(c) && i <= c.matching && Distinct(tried)
    && Front(tried, |tried|) == Front(c.items, i) + (Matching(v) - Matching(c))
  }

  lemma TriedStep<T>(tried: seq<T>, v: Split<T>, c: Split<T>, i: nat)
    requires Rest(v, c) && i < c.matching && Tried(tried, v, c, i)
    ensures Tried(tried + [c.items[i]], v, c, i + 1)
    ensures Tried(tried + [c.items[i]], v, Passive(c, i).0, i)
  {
    var x, t := c.items[i], tried + [c.items[i]];
    FrontNext(c.items, i);
    FrontPush(tried, x, |tried|);
    FrontNext(t, |tried|);
    FrontSubset(c.items, i + 1, c.matching);
    assert x !in Front(tried, |tried|);
    assert Distinct(t);
    PassiveSets(c, i);
    PassiveKeeps(c, i);
    SameFront(c.items, Passive(c, i).0.items, i);
  }

  lemma TriedAll<T>(tried: seq<T>, v: Split<T>, c: Split<T>)
    requires Rest(v, c) && Tried(tried, v, c, c.matching)
    ensures Distinct(tried) && Front(tried, |tried|) == Matching(v)
  {
  }
}
