/**
  What a distributor is to its socket: classes of pipes, as sets, and what every event makes of
  them.  `Dist` runs this machine on an array with three cursors.
 */
module DistRun {
  import opened PipeArray

  // The pipes of each class.
  datatype Classes = Classes(
    matching: set<Pipe>, active: set<Pipe>, eligible: set<Pipe>, attached: set<Pipe>, more: bool)

  // ... the place in the run of messages, and the stamps on every pipe there is, attached or not.
  datatype State = State(c: Classes, cur: nat, parts: nat, stamps: map<Pipe, seq<Stamp>>)

  // What can happen to a distributor.  A message part is sent as a fresh small message.
  datatype Event = Attaches(p: Pipe) | Terminates(p: Pipe) | Activates(p: Pipe) | Matches(p: Pipe)
                 | Unmatches | ReverseMatches | SendsToMatching(last: bool) | SendsToAll(last: bool)
  {
    predicate OnPipe() {
      Attaches? || Terminates? || Activates? || Matches?
    }

    predicate Sends() {
      SendsToMatching? || SendsToAll?
    }
  }

  // The caller's side: a pipe is attached once at a time, and only while it is attached may it
  // be matched, activated or terminated; matching changes between messages only; a message
  // that has begun to go to some pipes does not then go to all.  A pipe that has the first parts
  // of a message is not activated while another is passive (see Dist.Activate).
  ghost predicate Permits(c: Classes, e: Event) {
    match e
    case Attaches(p) => p !in c.attached
    case Terminates(p) => p in c.attached
    case Activates(p) => p in c.attached && !(c.more && p in c.matching && c.eligible != c.attached)
    case Matches(p) => p in c.attached && !c.more
    case Unmatches => !c.more
    case ReverseMatches => !c.more
    case SendsToMatching(_) => true
    case SendsToAll(_) => c.more ==> c.matching == c.active
  }

  ghost predicate Moves(c: Classes, e: Event, d: Classes) {
    match e
    case Attaches(p) => d == Lifted(c, p).(attached := c.attached + {p})
    case Terminates(p) => d == Lowered(c, {p}).(attached := c.attached - {p})
    case Activates(p) =>
      if c.eligible == c.attached then d == c
      else if p !in c.eligible then d == Lifted(c, p)
      else exists q :: q in c.attached - c.eligible && d == Lifted(Traded(c, p, q), q)
    case Matches(p) => d == if p in c.active then c.(matching := c.matching + {p}) else c
    case Unmatches => d == c.(matching := {})
    case ReverseMatches => d == c.(matching := c.eligible - c.matching)
    case SendsToMatching(last) => Sent(c, c.matching, last, d)
    case SendsToAll(last) => Sent(c, c.active, last, d)
  }

  // Eligible, and active too between messages.
  ghost function Lifted(c: Classes, p: Pipe): Classes {
    c.(eligible := c.eligible + {p}, active := if c.more then c.active else c.active + {p})
  }

  ghost function Lowered(c: Classes, ps: set<Pipe>): Classes {
    c.(matching := c.matching - ps, active := c.active - ps, eligible := c.eligible - ps)
  }

  // An eligible pipe that is activated: a passive one takes its place in the classes in front.
  ghost function Traded(c: Classes, p: Pipe, q: Pipe): Classes {
    c.(matching := if p in c.matching then c.matching - {p} + {q} else c.matching,
       active := if c.more && p in c.active then c.active - {p} + {q} else c.active)
  }

  // A part is tried on some pipes: those that fail leave every class, the others match.  Behind
  // the last part all eligible pipes are active.
  ghost predicate Sent(c: Classes, tried: set<Pipe>, last: bool, d: Classes) {
    var l := Lowered(c, tried - d.matching);
    && d.matching <= tried
    && d == Classes(d.matching, if last then l.eligible else l.active, l.eligible, c.attached, !last)
  }

  // A part is on the pipes that match behind it, and on no other.  An event that is not permitted
  // when its turn comes is skipped.
  ghost predicate Steps(s: State, e: Event, t: State) {
    if !Permits(s.c, e) then t == s
    else
      && Moves(s.c, e, t.c) && t.stamps.Keys == s.stamps.Keys
      && (forall p :: p in s.stamps ==>
            t.stamps[p] == s.stamps[p] + if e.Sends() && p in t.c.matching then [Stamp(s.cur, s.parts)] else [])
      && t.cur == s.cur + (if e.Sends() && e.last then 1 else 0)
      && t.parts == if !e.Sends() then s.parts else if e.last then 0 else s.parts + 1
  }
}
