/**
  The array of the distributor as a value: the items and the three cursors, and what each
  operation of ExternalLib/libzmq/src/dist.cpp makes of them by swapping.  The lemmas say what
  that means for the sets of matching, active and eligible pipes.
 */
module Partition {
  import opened PipeArray

  datatype Split<T> = Split(items: seq<T>, matching: nat, active: nat, eligible: nat)

  ghost predicate Distinct<T>(s: seq<T>) {
    forall i, j :: 0 <= i < j < |s| ==> s[i] != s[j]
  }

  ghost predicate Bounded<T>(d: Split<T>) {
    d.matching <= d.active <= d.eligible <= |d.items|
  }

  ghost predicate Ordered<T>(d: Split<T>) {
    Bounded(d) && Distinct(d.items)
  }

  // The first `n` items.
  ghost function Front<T>(s: seq<T>, n: nat): set<T>
    requires n <= |s|
  {
    set i | 0 <= i < n :: s[i]
  }

  ghost function Matching<T>(d: Split<T>): set<T>
    requires Bounded(d)
  {
    Front(d.items, d.matching)
  }

  ghost function Active<T>(d: Split<T>): set<T>
    requires Bounded(d)
  {
    Front(d.items, d.active)
  }

  ghost function Eligible<T>(d: Split<T>): set<T>
    requires Bounded(d)
  {
    Front(d.items, d.eligible)
  }

  ghost function All<T>(d: Split<T>): set<T>
    requires Bounded(d)
  {
    Front(d.items, |d.items|)
  }

  // The four sets at once.
  ghost predicate Sets<T>(d: Split<T>, m: set<T>, a: set<T>, e: set<T>, all: set<T>) {
    Ordered(d) && Matching(d) == m && Active(d) == a && Eligible(d) == e && All(d) == all
  }

  // ---------------------------------------------------------------- swaps and fronts

  lemma SwapDistinct<T>(s: seq<T>, i: nat, j: nat)
    requires i < |s| && j < |s| && Distinct(s)
    ensures Distinct(Swapped(s, i, j))
  {
  }

  ghost function Exchanged<T>(f: set<T>, x: T, xIn: bool, y: T, yIn: bool): set<T> {
    if xIn == yIn then f else if xIn then f - {x} + {y} else f - {y} + {x}
  }

  lemma SwapFront<T>(s: seq<T>, i: nat, j: nat, n: nat)
    requires i < |s| && j < |s| && n <= |s| && Distinct(s)
    ensures Front(Swapped(s, i, j), n) == Exchanged(Front(s, n), s[i], i < n, s[j], j < n)
  {
    var t := Swapped(s, i, j);
    forall x ensures x in Front(t, n) <==> x in Exchanged(Front(s, n), s[i], i < n, s[j], j < n) {
      if x in Front(t, n) {
        var k :| 0 <= k < n && t[k] == x;
        assert t[k] == s[Moved(k, i, j)];
      }
      if x in Exchanged(Front(s, n), s[i], i < n, s[j], j < n) {
        var k :| 0 <= k < |s| && s[k] == x && (k < n || k == i || k == j);
        assert t[Moved(k, i, j)] == x;
      }
    }
  }

  lemma FrontNext<T>(s: seq<T>, n: nat)
    requires n < |s|
    ensures Front(s, n + 1) == Front(s, n) + {s[n]}
    ensures Distinct(s) ==> s[n] !in Front(s, n)
  {
    assert forall x :: x in Front(s, n + 1) <==> x in Front(s, n) || x == s[n];
  }

  lemma FrontOne<T>(s: seq<T>)
    requires s != []
    ensures Front(s, 1) == {s[0]}
  {
    assert Front(s, 0) == {};
    FrontNext(s, 0);
  }

  lemma FrontPush<T>(s: seq<T>, x: T, n: nat)
    requires n <= |s|
    ensures Front(s + [x], n) == Front(s, n)
  {
    assert forall i :: 0 <= i < n ==> (s + [x])[i] == s[i];
  }

  lemma FrontAt<T>(s: seq<T>, k: nat, n: nat)
    requires k < |s| && n <= |s| && Distinct(s)
    ensures s[k] in Front(s, n) <==> k < n
  {
  }

  // One swap, seen by all four fronts.
  ghost function SwapIn<T>(d: Split<T>, i: nat, j: nat): Split<T>
    requires i < |d.items| && j < |d.items|
  {
    d.(items := Swapped(d.items, i, j))
  }

  lemma SwapSets<T>(d: Split<T>, i: nat, j: nat)
    requires Ordered(d) && i < |d.items| && j < |d.items|
    ensures var s := d.items;
            Sets(SwapIn(d, i, j),
                 Exchanged(Matching(d), s[i], i < d.matching, s[j], j < d.matching),
                 Exchanged(Active(d), s[i], i < d.active, s[j], j < d.active),
                 Exchanged(Eligible(d), s[i], i < d.eligible, s[j], j < d.eligible),
                 All(d))
  {
    SwapDistinct(d.items, i, j);
    SwapFront(d.items, i, j, d.matching);
    SwapFront(d.items, i, j, d.active);
    SwapFront(d.items, i, j, d.eligible);
    SwapFront(d.items, i, j, |d.items|);
  }

  // ---------------------------------------------------------------- the operations

  // Attach in the middle of a message: eligible only; otherwise active as well.
  ghost function Attached<T>(d: Split<T>, p: T, more: bool): Split<T>
    requires Bounded(d)
  {
    var s := d.items + [p];
    if more then Split(Swapped(s, d.eligible, |s| - 1), d.matching, d.active, d.eligible + 1)
    else Split(Swapped(s, d.active, |s| - 1), d.matching, d.active + 1, d.eligible + 1)
  }

  lemma AttachedSets<T>(d: Split<T>, p: T, more: bool)
    requires Ordered(d) && p !in d.items && (!more ==> d.active == d.eligible)
    ensures var d' := Attached(d, p, more);
            && Sets(d', Matching(d), if more then Active(d) else Active(d) + {p}, Eligible(d) + {p}, All(d) + {p})
            && (!more ==> d'.active == d'.eligible) && d'.matching == d.matching
  {
    var s := d.items + [p];
    var c := Split(s, d.matching, d.active, d.eligible);
    FrontPush(d.items, p, d.matching);
    FrontPush(d.items, p, d.active);
    FrontPush(d.items, p, d.eligible);
    FrontPush(d.items, p, |d.items|);
    FrontNext(s, |d.items|);
    var k := if more then d.eligible else d.active;
    SwapSets(c, k, |s| - 1);
    FrontNext(Swapped(s, k, |s| - 1), k);
    assert Swapped(s, k, |s| - 1)[k] == p;
  }

  // match of the item at `k`.
  ghost function Matched<T>(d: Split<T>, k: nat): Split<T>
    requires Bounded(d) && k < |d.items|
  {
    if k < d.matching || k >= d.eligible then d
    else SwapIn(d, k, d.matching).(matching := d.matching + 1)
  }

  // An active pipe becomes matching and nothing else changes ...
  lemma MatchedSets<T>(d: Split<T>, k: nat)
    requires Ordered(d) && k < |d.items| && !(d.active <= k < d.eligible)
    ensures Sets(Matched(d, k), if k < d.active then Matching(d) + {d.items[k]} else Matching(d),
                 Active(d), Eligible(d), All(d))
  {
    FrontAt(d.items, k, d.matching);
    if d.matching <= k < d.eligible {
      SwapSets(d, k, d.matching);
      FrontNext(SwapIn(d, k, d.matching).items, d.matching);
    }
  }

  // ... but a pipe that is eligible and not active, as there may be in the middle of a message,
  // is let in all the same, and then an active pipe is pushed out or the cursors cross.  So callers
  // must not match then, and do not.
  lemma MatchedIff<T>(d: Split<T>, k: nat)
    requires Ordered(d) && k < |d.items|
    ensures (Bounded(Matched(d, k)) && Active(Matched(d, k)) == Active(d)) <==> !(d.active <= k < d.eligible)
  {
    if d.active <= k < d.eligible {
      if d.matching < d.active {
        var c := SwapIn(d, k, d.matching);
        SwapSets(d, k, d.matching);
        FrontAt(d.items, k, d.active);
        assert d.items[k] in Active(c) && d.items[k] !in Active(d);
      }
    } else {
      MatchedSets(d, k);
    }
  }

  // Such a call: the second of two pipes was attached in the middle of a message.
  lemma MatchedPushesOut()
    ensures var d := Split([1, 2], 0, 1, 2);
            Ordered(d) && Active(d) == {1} && Matching(Matched(d, 1)) == {2} && Active(Matched(d, 1)) == {2}
  {
    var d := Split([1, 2], 0, 1, 2);
    assert Matched(d, 1).items == [2, 1] && Matched(d, 1).active == Matched(d, 1).matching == 1;
    FrontOne([2, 1]);
    FrontOne([1, 2]);
  }

  // The loop of reverse_match from `i` on, with the matching cursor at `m`.
  ghost function Reversing<T>(s: seq<T>, m: nat, i: nat, e: nat): seq<T>
    requires m <= i <= e <= |s|
    decreases e - i
  {
    if i == e then s else Reversing(Swapped(s, i, m), m + 1, i + 1, e)
  }

  ghost function Reversed<T>(d: Split<T>): Split<T>
    requires d.matching <= d.eligible <= |d.items|
  {
    d.(items := Reversing(d.items, 0, d.matching, d.eligible), matching := d.eligible - d.matching)
  }

  ghost predicate Towards<T>(s: seq<T>, m: nat, i: nat, e: nat, goal: seq<T>) {
    m <= i <= e <= |s| && Reversing(s, m, i, e) == goal
  }

  lemma TowardsStep<T>(s: seq<T>, m: nat, i: nat, e: nat, goal: seq<T>)
    requires Towards(s, m, i, e, goal) && i < e
    ensures Towards(Swapped(s, i, m), m + 1, i + 1, e, goal)
  {
  }

  lemma TowardsEnd<T>(s: seq<T>, m: nat, e: nat, goal: seq<T>)
    requires Towards(s, m, e, e, goal)
    ensures s == goal
  {
  }

  ghost function Range<T>(s: seq<T>, i: nat, n: nat): set<T>
    requires i <= n <= |s|
  {
    set k | i <= k < n :: s[k]
  }

  lemma {:induction false} ReversingSets<T>(s: seq<T>, m: nat, i: nat, e: nat)
    requires m <= i <= e <= |s| && Distinct(s)
    ensures var t := Reversing(s, m, i, e);
            && |t| == |s| && Distinct(t) && Front(t, m + (e - i)) == Front(s, m) + Range(s, i, e)
            && Front(t, e) == Front(s, e) && Front(t, |t|) == Front(s, |s|)
    decreases e - i
  {
    if i == e {
      assert Range(s, i, e) == {};
    } else {
      var c := Swapped(s, i, m);
      SwapDistinct(s, i, m);
      SwapFront(s, i, m, m);
      SwapFront(s, i, m, e);
      SwapFront(s, i, m, |s|);
      FrontNext(c, m);
      ReversingSets(c, m + 1, i + 1, e);
      RangeStep(s, c, i, e);
    }
  }

  lemma RangeStep<T>(s: seq<T>, t: seq<T>, i: nat, n: nat)
    requires i < n <= |s| == |t| && forall k :: i < k < n ==> t[k] == s[k]
    ensures Range(s, i, n) == {s[i]} + Range(t, i + 1, n)
  {
    forall x ensures x in Range(s, i, n) <==> x in {s[i]} + Range(t, i + 1, n) {
      if x in Range(s, i, n) {
        var k :| i <= k < n && s[k] == x;
        assert k > i ==> t[k] == x;
      }
    }
  }

  lemma ReversedFronts<T>(d: Split<T>)
    requires d.matching <= d.eligible <= |d.items| && Distinct(d.items)
    ensures var r := Reversed(d);
            && r.matching <= r.eligible == d.eligible <= |r.items| == |d.items| && Distinct(r.items)
            && Front(r.items, r.matching) == Front(d.items, d.eligible) - Front(d.items, d.matching)
            && Front(r.items, r.eligible) == Front(d.items, d.eligible)
            && Front(r.items, |r.items|) == Front(d.items, |d.items|)
  {
    ReversingSets(d.items, 0, d.matching, d.eligible);
    var r, s := Range(d.items, d.matching, d.eligible), d.items;
    forall x ensures x in r <==> x in Front(s, d.eligible) - Front(s, d.matching) {
      if x in r {
        var k :| d.matching <= k < d.eligible && s[k] == x;
        FrontAt(s, k, d.matching);
      }
    }
    assert Front(s, 0) == {};
  }

  // reverse_match makes exactly the other eligible pipes matching ...
  lemma ReversedSets<T>(d: Split<T>)
    requires Ordered(d)
    ensures var r := Reversed(d);
            && r.matching <= r.eligible <= |r.items| && Distinct(r.items)
            && Front(r.items, r.matching) == Eligible(d) - Matching(d)
            && Front(r.items, r.eligible) == Eligible(d) && Front(r.items, |r.items|) == All(d)
            && (d.active == d.eligible ==> Sets(r, Eligible(d) - Matching(d), Active(d), Eligible(d), All(d)))
  {
    ReversedFronts(d);
  }

  // ... and so keeps the cursors in order and the active pipes if and only if all eligible pipes
  // are active, as they are between messages.
  lemma ReversedIff<T>(d: Split<T>)
    requires Ordered(d)
    ensures Bounded(Reversed(d)) && Active(Reversed(d)) == Active(d) <==> d.active == d.eligible
  {
    var r := Reversed(d);
    ReversedSets(d);
    if d.active < d.eligible && Bounded(r) {
      var x := d.items[d.active];
      FrontAt(d.items, d.active, d.matching);
      FrontAt(d.items, d.active, d.active);
      FrontSubset(r.items, r.matching, r.active);
      assert x in Front(r.items, r.matching) && x !in Active(d);
    }
  }

  // Twice gives back the pipes that matched.
  lemma ReversedTwice<T>(d: Split<T>)
    requires Ordered(d)
    ensures var r := Reversed(d);
            r.matching <= r.eligible <= |r.items| &&
            var t := Reversed(r);
            && t.matching == d.matching && t.eligible == d.eligible && |t.items| == |d.items|
            && Front(t.items, t.matching) == Matching(d) && Front(t.items, t.eligible) == Eligible(d)
            && (d.active == d.eligible ==> Sets(t, Matching(d), Active(d), Eligible(d), All(d)))
  {
    ReversedFronts(d);
    ReversedFronts(Reversed(d));
    FrontSubset(d.items, d.matching, d.eligible);
    assert Eligible(d) - (Eligible(d) - Matching(d)) == Matching(d);
  }

  lemma FrontSubset<T>(s: seq<T>, m: nat, n: nat)
    requires m <= n <= |s|
    ensures Front(s, m) <= Front(s, n)
  {
  }

  // Moving the item at `k` out of each class it is in, by the cursors one after another.
  ghost function OutOfMatching<T>(d: Split<T>, k: nat): (r: (Split<T>, nat))
    requires Bounded(d) && k < |d.items|
    ensures Bounded(r.0) && r.1 < |r.0.items| == |d.items| && r.0.items[r.1] == d.items[k] && r.1 >= r.0.matching
  {
    if k < d.matching then (SwapIn(d, k, d.matching - 1).(matching := d.matching - 1), d.matching - 1) else (d, k)
  }

  ghost function OutOfActive<T>(d: Split<T>, k: nat): (r: (Split<T>, nat))
    requires Bounded(d) && d.matching <= k < |d.items|
    ensures Bounded(r.0) && r.1 < |r.0.items| == |d.items| && r.0.items[r.1] == d.items[k] && r.1 >= r.0.active
  {
    if k < d.active then (SwapIn(d, k, d.active - 1).(active := d.active - 1), d.active - 1) else (d, k)
  }

  ghost function OutOfEligible<T>(d: Split<T>, k: nat): (r: (Split<T>, nat))
    requires Bounded(d) && d.active <= k < |d.items|
    ensures Bounded(r.0) && r.1 < |r.0.items| == |d.items| && r.0.items[r.1] == d.items[k] && r.1 >= r.0.eligible
  {
    if k < d.eligible then (SwapIn(d, k, d.eligible - 1).(eligible := d.eligible - 1), d.eligible - 1) else (d, k)
  }

  ghost function Passive<T>(d: Split<T>, k: nat): (r: (Split<T>, nat))
    requires Bounded(d) && k < |d.items|
    ensures Bounded(r.0) && r.1 < |r.0.items| == |d.items| && r.0.items[r.1] == d.items[k] && r.1 >= r.0.eligible
  {
    var (d1, k1) := OutOfMatching(d, k);
    var (d2, k2) := OutOfActive(d1, k1);
    OutOfEligible(d2, k2)
  }

  lemma OutOfMatchingSets<T>(d: Split<T>, k: nat)
    requires Ordered(d) && k < |d.items|
    ensures Sets(OutOfMatching(d, k).0, Matching(d) - {d.items[k]}, Active(d), Eligible(d), All(d))
  {
    FrontAt(d.items, k, d.matching);
    if k < d.matching {
      SwapSets(d, k, d.matching - 1);
      FrontNext(SwapIn(d, k, d.matching - 1).items, d.matching - 1);
    }
  }

  lemma OutOfActiveSets<T>(d: Split<T>, k: nat)
    requires Ordered(d) && d.matching <= k < |d.items|
    ensures Sets(OutOfActive(d, k).0, Matching(d), Active(d) - {d.items[k]}, Eligible(d), All(d))
  {
    FrontAt(d.items, k, d.active);
    if k < d.active {
      SwapSets(d, k, d.active - 1);
      FrontNext(SwapIn(d, k, d.active - 1).items, d.active - 1);
    }
  }

  lemma OutOfEligibleSets<T>(d: Split<T>, k: nat)
    requires Ordered(d) && d.active <= k < |d.items|
    ensures Sets(OutOfEligible(d, k).0, Matching(d), Active(d), Eligible(d) - {d.items[k]}, All(d))
  {
    FrontAt(d.items, k, d.eligible);
    if k < d.eligible {
      SwapSets(d, k, d.eligible - 1);
      FrontNext(SwapIn(d, k, d.eligible - 1).items, d.eligible - 1);
    }
  }

  // The item at `k` leaves its classes; no other item changes class.
  lemma PassiveSets<T>(d: Split<T>, k: nat)
    requires Ordered(d) && k < |d.items|
    ensures var p := d.items[k];
            Sets(Passive(d, k).0, Matching(d) - {p}, Active(d) - {p}, Eligible(d) - {p}, All(d))
  {
    var (d1, k1) := OutOfMatching(d, k);
    OutOfMatchingSets(d, k);
    var (d2, k2) := OutOfActive(d1, k1);
    OutOfActiveSets(d1, k1);
    OutOfEligibleSets(d2, k2);
  }

  // Items before a matching item stay where they are when it leaves.
  lemma PassiveKeeps<T>(d: Split<T>, k: nat)
    requires Bounded(d) && k < d.matching
    ensures var c := Passive(d, k).0;
            && c.matching == d.matching - 1 && c.active == d.active - 1 && c.eligible == d.eligible - 1
            && |c.items| == |d.items| && forall i :: 0 <= i < k ==> c.items[i] == d.items[i]
  {
  }

  // What a round of writes has come to: the failed pipes have left all three classes.
  ghost predicate Rest<T>(d: Split<T>, c: Split<T>) {
    && Ordered(d) && Ordered(c) && Matching(c) <= Matching(d) && All(c) == All(d)
    && Active(c) == Active(d) - (Matching(d) - Matching(c))
    && Eligible(c) == Eligible(d) - (Matching(d) - Matching(c))
    && d.matching - c.matching == d.active - c.active == d.eligible - c.eligible
  }

  lemma RestCounts<T>(d: Split<T>, c: Split<T>)
    requires Rest(d, c)
    ensures d.matching - c.matching == d.active - c.active == d.eligible - c.eligible && Bounded(d) && Bounded(c)
    ensures Matching(c) <= Matching(d)
  {
  }

  // A part has gone to the matching items and the rest are left; after a last part all eligible
  // items are active.
  ghost predicate Ended<T>(d: Split<T>, c: Split<T>, more: bool) {
    && Bounded(c) && d.matching - c.matching <= d.active
    && if more then Rest(d, c)
       else c.active == c.eligible && Rest(d, c.(active := d.active - (d.matching - c.matching)))
  }

  lemma RestEnded<T>(d: Split<T>, r: Split<T>, c: Split<T>, more: bool)
    requires Rest(d, r) && c == if more then r else r.(active := r.eligible)
    ensures Ended(d, c, more)
  {
    assert r == r.(active := d.active - (d.matching - r.matching));
  }

  lemma EndedSets<T>(d: Split<T>, c: Split<T>, more: bool)
    requires Ended(d, c, more)
    ensures Bounded(d) && Bounded(c) && Matching(c) <= Matching(d)
    ensures Eligible(c) == Eligible(d) - (Matching(d) - Matching(c))
    ensures if more then Active(c) == Active(d) - (Matching(d) - Matching(c)) else Active(c) == Eligible(c)
  {
  }

  lemma RestStep<T>(d: Split<T>, c: Split<T>, k: nat)
    requires Rest(d, c) && k < c.matching
    ensures Rest(d, Passive(c, k).0)
  {
    PassiveSets(c, k);
    PassiveKeeps(c, k);
    FrontAt(c.items, k, c.matching);
    FrontSubset(c.items, c.matching, c.active);
    FrontSubset(c.items, c.active, c.eligible);
  }

  ghost function Terminated<T>(d: Split<T>, k: nat): Split<T>
    requires Bounded(d) && k < |d.items|
  {
    var (c, j) := Passive(d, k);
    c.(items := Without(c.items, j))
  }

  lemma TerminatedSets<T>(d: Split<T>, k: nat)
    requires Ordered(d) && k < |d.items|
    ensures var p := d.items[k];
            Sets(Terminated(d, k), Matching(d) - {p}, Active(d) - {p}, Eligible(d) - {p}, All(d) - {p})
  {
    PassiveSets(d, k);
    var (c, j) := Passive(d, k);
    var t := Without(c.items, j);
    SameFront(c.items, t, c.matching);
    SameFront(c.items, t, c.active);
    SameFront(c.items, t, c.eligible);
    WithoutFront(c.items, j);
  }

  lemma SameFront<T>(s: seq<T>, t: seq<T>, n: nat)
    requires n <= |s| && n <= |t| && forall i :: 0 <= i < n ==> t[i] == s[i]
    ensures Front(s, n) == Front(t, n)
  {
    forall x ensures x in Front(s, n) <==> x in Front(t, n) {
      if x in Front(s, n) {
        var i :| 0 <= i < n && s[i] == x;
        assert t[i] == x;
      }
    }
  }

  lemma WithoutFront<T>(s: seq<T>, k: nat)
    requires k < |s| && Distinct(s)
    ensures Distinct(Without(s, k)) && Front(Without(s, k), |s| - 1) == Front(s, |s|) - {s[k]}
  {
    var t := Without(s, k);
    forall x ensures x in Front(t, |t|) <==> x in Front(s, |s|) - {s[k]} {
      if x in Front(s, |s|) - {s[k]} {
        var i :| 0 <= i < |s| && s[i] == x;
        assert t[if i == |s| - 1 then k else i] == x;
      }
    }
  }

  // activated of the item at `k`.
  ghost function Activated<T>(d: Split<T>, k: nat, more: bool): Split<T>
    requires Bounded(d) && k < |d.items|
  {
    var c := if d.eligible < |d.items| then SwapIn(d, k, d.eligible).(eligible := d.eligible + 1) else d;
    if !more && c.active < |c.items| && c.eligible > 0 then
      SwapIn(c, c.eligible - 1, c.active).(active := c.active + 1)
    else c
  }

  // A passive pipe becomes eligible, and active between messages.  But if the pipe is eligible
  // already, it is another pipe that does, and takes its place in the classes in front.
  lemma ActivatedSets<T>(d: Split<T>, k: nat, more: bool)
    requires Ordered(d) && k < |d.items| && d.eligible < |d.items| && (!more ==> d.active == d.eligible)
    ensures var p := d.items[k];
            var q := if k < d.eligible then d.items[d.eligible] else p;
            Sets(Activated(d, k, more),
                 Exchanged(Matching(d), p, k < d.matching, q, false),
                 if more then Exchanged(Active(d), p, k < d.active, q, false) else Active(d) + {q},
                 Eligible(d) + {q},
                 All(d))
    ensures var c := Activated(d, k, more); c.matching == d.matching && (!more ==> c.active == c.eligible)
  {
    var b := SwapIn(d, k, d.eligible);
    SwapSets(d, k, d.eligible);
    FrontNext(b.items, d.eligible);
    FrontAt(d.items, k, d.eligible);
    if !more {
      var c := b.(eligible := d.eligible + 1);
      SwapSets(c, d.eligible, d.eligible);
      FrontNext(SwapIn(c, d.eligible, d.eligible).items, d.eligible);
    }
  }

  // With no pipe passive nothing happens.
  lemma ActivatedNone<T>(d: Split<T>, k: nat, more: bool)
    requires Bounded(d) && k < |d.items| == d.eligible && (!more ==> d.active == d.eligible)
    ensures Activated(d, k, more) == d
  {
  }

  // No class changes but for `p`.
  ghost predicate OnlyMoves<T>(d: Split<T>, c: Split<T>, p: T)
    requires Bounded(d)
  {
    && Bounded(c) && Matching(c) - {p} == Matching(d) - {p}
    && Active(c) - {p} == Active(d) - {p} && Eligible(c) - {p} == Eligible(d) - {p}
  }

  // activated moves the named pipe only, if and only if that pipe is passive or none is.
  lemma ActivatedIff<T>(d: Split<T>, k: nat, more: bool)
    requires Ordered(d) && k < |d.items| && (!more ==> d.active == d.eligible)
    ensures OnlyMoves(d, Activated(d, k, more), d.items[k]) <==> k >= d.eligible || d.eligible == |d.items|
    ensures Bounded(Activated(d, k, more)) && Eligible(Activated(d, k, more)) == Eligible(d) + {d.items[k]} <==>
            k >= d.eligible || d.eligible == |d.items|
  {
    FrontAt(d.items, k, d.eligible);
    if d.eligible == |d.items| {
      ActivatedNone(d, k, more);
    } else {
      ActivatedSets(d, k, more);
      FrontAt(d.items, d.eligible, d.eligible);
      var a, p := Activated(d, k, more), d.items[k];
      if k < d.eligible {
        assert d.items[d.eligible] in Eligible(a) - {p} && d.items[d.eligible] !in Eligible(d);
      } else {
        assert Active(d) + {p} - {p} == Active(d) - {p} && Eligible(d) + {p} - {p} == Eligible(d) - {p};
      }
    }
  }

  // Such a call, in the middle of a message: the pipe that has its first parts no longer
  // matches, and the passive one does.
  lemma ActivatedDisplaces()
    ensures var d := Split([1, 2], 1, 1, 1);
            Ordered(d) && Matching(d) == {1} && Matching(Activated(d, 0, true)) == {2}
  {
    var d := Split([1, 2], 1, 1, 1);
    assert Activated(d, 0, true).items == [2, 1];
    FrontOne([2, 1]);
    FrontOne([1, 2]);
  }
}
