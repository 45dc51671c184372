/**
  The value-level view of the subscription multi-trie of
  ExternalLib/libzmq/src/generic_mtrie_impl.hpp.

  A `Tree<A>` is the shape of a trie whose nodes live at addresses of type `A`.
  The heap nodes are in `MtrieNode`, the loops that change them in `MtrieAdd`, `MtrieRmKey` and
  `MtrieRmValue`;
  here are the meaning of a shape (which pipes a key holds), the canonical form,
  and the recursive specification of the removal of a value.
 */
module MtrieShape {
  import Wire
  import opened Wrappers

  type Byte = Wire.Byte
  type Key = seq<Byte>
  // std::set<value_t *> is ordered by address, so a pipe is its address.
  type Pipe = nat
  type Contents = imap<Key, set<Pipe>>

  // `Null` is an empty slot.  `kids` are the slots [min, min + count).
  datatype Tree<A> = Null | Tree(node: A, pipes: Option<set<Pipe>>, min: int, kids: seq<Tree<A>>)

  // ---------------------------------------------------------------- meaning

  ghost predicate InRange<A>(t: Tree<A>, c: int) {
    t.Tree? && t.min <= c < t.min + |t.kids|
  }

  ghost function Values<A>(t: Tree<A>): set<Pipe> {
    if t.Tree? && t.pipes.Some? then t.pipes.value else {}
  }

  // The pipes held at key `k`, below `t`.
  ghost function Get<A>(t: Tree<A>, k: Key): set<Pipe>
    decreases k
  {
    if k == [] then Values(t)
    else if InRange(t, k[0]) then Get(t.kids[k[0] - t.min], k[1..])
    else {}
  }

  ghost predicate SameMeaning<A>(t: Tree<A>, u: Tree<A>) {
    forall k: Key :: Get(t, k) == Get(u, k)
  }

  lemma TakeOne(k: Key, i: int)
    requires 0 <= i < |k|
    ensures k[..i] + [k[i]] == k[..i + 1]
  {
  }

  lemma SameTrans<A>(t: Tree<A>, u: Tree<A>, v: Tree<A>)
    requires SameMeaning(t, u) && SameMeaning(u, v)
    ensures SameMeaning(t, v)
  {
    forall k: Key ensures Get(t, k) == Get(v, k) {
      assert Get(t, k) == Get(u, k);
    }
  }

  // The plain map a trie stands for: keys that hold at least one pipe.
  ghost function ContentsOf<A>(t: Tree<A>): Contents {
    imap k: Key | Get(t, k) != {} :: Get(t, k)
  }

  // ---------------------------------------------------------------- canonical form

  // generic_mtrie_t::is_redundant, seen on shapes.
  ghost predicate Redundant<A>(t: Tree<A>) {
    t.Tree? && t.pipes.None? && forall i :: 0 <= i < |t.kids| ==> t.kids[i].Null?
  }

  ghost predicate Canonical<A>(t: Tree<A>)
    decreases t
  {
    t.Null? ||
    (&& 0 <= t.min && t.min + |t.kids| <= 256
     && (t.pipes.Some? ==> t.pipes.value != {})
     && (|t.kids| > 0 ==> !t.kids[0].Null? && !t.kids[|t.kids| - 1].Null?)
     && (forall i :: 0 <= i < |t.kids| ==> Canonical(t.kids[i]) && !Redundant(t.kids[i])))
  }

  // Equal as tries: same pipes and same tables.  `min` is meaningless where `count` is 0.
  ghost predicate SameTrie<A>(t: Tree<A>, u: Tree<A>)
    decreases t
  {
    if t.Null? || u.Null? then t.Null? && u.Null?
    else
      && t.pipes == u.pipes
      && |t.kids| == |u.kids|
      && (|t.kids| > 0 ==> t.min == u.min)
      && forall i :: 0 <= i < |t.kids| ==> SameTrie(t.kids[i], u.kids[i])
  }

  // A canonical node that is not redundant holds some key.
  lemma {:induction false} SomeKey<A>(t: Tree<A>) returns (k: Key)
    requires t.Tree? && Canonical(t) && !Redundant(t)
    ensures Get(t, k) != {}
    decreases t
  {
    if t.pipes.Some? {
      k := [];
    } else {
      var j := SomeKey(t.kids[0]);
      k := [t.min] + j;
      assert k[1..] == j;
    }
  }

  lemma GetKid<A>(t: Tree<A>, i: int, k: Key)
    requires t.Tree? && 0 <= t.min && t.min + |t.kids| <= 256 && 0 <= i < |t.kids|
    ensures Get(t, [t.min + i] + k) == Get(t.kids[i], k)
  {
    assert ([t.min + i] + k)[1..] == k;
  }

  // A key below the first slot of one trie cannot be below another's table start.
  lemma RangeCovered<A>(t: Tree<A>, u: Tree<A>)
    requires t.Tree? && u.Tree? && Canonical(t) && Canonical(u) && SameMeaning(t, u)
    requires |t.kids| > 0
    ensures |u.kids| > 0 && u.min <= t.min && t.min + |t.kids| <= u.min + |u.kids|
  {
    var j := SomeKey(t.kids[0]);
    GetKid(t, 0, j);
    assert Get(u, [t.min + 0] + j) != {};
    var l := SomeKey(t.kids[|t.kids| - 1]);
    GetKid(t, |t.kids| - 1, l);
    assert Get(u, [t.min + (|t.kids| - 1)] + l) != {};
  }

  /**
    The canonical form is unique: two canonical tries that hold the same pipes at every
    key are the same trie, table by table.  So a trie's layout depends on its contents
    only, never on the order of the operations that built it.
   */
  lemma {:induction false} CanonicalUnique<A>(t: Tree<A>, u: Tree<A>)
    requires t.Tree? && u.Tree? && Canonical(t) && Canonical(u) && SameMeaning(t, u)
    ensures SameTrie(t, u)
    decreases t
  {
    assert Get(t, []) == Get(u, []);
    if |t.kids| > 0 { RangeCovered(t, u); }
    if |u.kids| > 0 { RangeCovered(u, t); }
    forall i | 0 <= i < |t.kids| ensures SameTrie(t.kids[i], u.kids[i]) {
      KidsSameMeaning(t, u, i);
      NullAgree(t.kids[i], u.kids[i]);
      if t.kids[i].Tree? { CanonicalUnique(t.kids[i], u.kids[i]); }
    }
  }

  lemma KidsSameMeaning<A>(t: Tree<A>, u: Tree<A>, i: int)
    requires t.Tree? && u.Tree? && SameMeaning(t, u) && t.min == u.min && |t.kids| == |u.kids|
    requires 0 <= t.min && t.min + |t.kids| <= 256 && 0 <= i < |t.kids|
    ensures SameMeaning(t.kids[i], u.kids[i])
  {
    forall k: Key ensures Get(t.kids[i], k) == Get(u.kids[i], k) {
      GetKid(t, i, k);
      GetKid(u, i, k);
    }
  }

  lemma NullGet<A>(t: Tree<A>, k: Key)
    requires t.Null? || Redundant(t)
    ensures Get(t, k) == {}
  {
    if k != [] && InRange(t, k[0]) { NullGet(t.kids[k[0] - t.min], k[1..]); }
  }

  lemma NullAgree<A>(t: Tree<A>, u: Tree<A>)
    requires SameMeaning(t, u) && Canonical(t) && Canonical(u) && !Redundant(t) && !Redundant(u)
    ensures t.Null? <==> u.Null?
  {
    if t.Null? && u.Tree? {
      var k := SomeKey(u);
      NullGet(t, k);
    } else if u.Null? && t.Tree? {
      var k := SomeKey(t);
      NullGet(u, k);
    }
  }

  // ---------------------------------------------------------------- trimming a table

  // The slots of `s` that are all empty, where `z` is the empty slot.
  ghost predicate Void<T>(s: seq<T>, z: T) {
    forall i :: 0 <= i < |s| ==> s[i] == z
  }

  // Index of the first live slot, or |s|.
  ghost function First<T>(s: seq<T>, z: T): (r: nat)
    ensures r <= |s|
    ensures forall i :: 0 <= i < r ==> s[i] == z
    ensures r < |s| ==> s[r] != z
  {
    if s == [] || s[0] != z then 0 else 1 + First(s[1..], z)
  }

  // One past the last live slot, or 0.
  ghost function Last<T>(s: seq<T>, z: T): (r: nat)
    ensures r <= |s|
    ensures forall i :: r <= i < |s| ==> s[i] == z
    ensures r > 0 ==> s[r - 1] != z
  {
    if s == [] then 0
    else if s[|s| - 1] != z then |s|
    else Last(s[..|s| - 1], z)
  }

  lemma FirstIs<T>(s: seq<T>, z: T, r: nat)
    requires r < |s| && s[r] != z && forall i :: 0 <= i < r ==> s[i] == z
    ensures First(s, z) == r
  {
  }

  lemma LastIs<T>(s: seq<T>, z: T, r: nat)
    requires 0 < r <= |s| && s[r - 1] != z && forall i :: r <= i < |s| ==> s[i] == z
    ensures Last(s, z) == r
  {
  }

  // A table cut to its first and last live slots, and the character it then starts at.
  ghost function Cut<T>(s: seq<T>, z: T): seq<T> {
    if Void(s, z) then [] else s[First(s, z)..Last(s, z)]
  }

  ghost function CutMin<T>(min: int, s: seq<T>, z: T): int {
    if Void(s, z) then min else min + First(s, z)
  }

  // What both removals leave of a node.
  ghost function Trim<A>(t: Tree<A>): Tree<A>
    requires t.Tree?
  {
    t.(min := CutMin(t.min, t.kids, Null), kids := Cut(t.kids, Null))
  }

  // Everything `Canonical` asks of a node, before its table is trimmed.
  ghost predicate Loose<A>(t: Tree<A>) {
    && t.Tree? && 0 <= t.min && t.min + |t.kids| <= 256
    && (t.pipes.Some? ==> t.pipes.value != {})
    && forall i :: 0 <= i < |t.kids| ==> Canonical(t.kids[i]) && !Redundant(t.kids[i])
  }

  lemma TrimCanonical<A>(t: Tree<A>)
    requires Loose(t)
    ensures Canonical(Trim(t))
    ensures Redundant(Trim(t)) <==> Redundant(t)
  {
    hide First, Last;
    if !Void(t.kids, Null) {
      var f, l := First(t.kids, Null), Last(t.kids, Null);
      assert Trim(t).kids[0] == t.kids[f];
      assert Trim(t).kids[l - f - 1] == t.kids[l - 1];
    }
  }

  lemma TrimMeaning<A>(t: Tree<A>)
    requires t.Tree?
    ensures SameMeaning(t, Trim(t))
  {
    forall k: Key ensures Get(t, k) == Get(Trim(t), k) {
      if k != [] && InRange(t, k[0]) && !InRange(Trim(t), k[0]) {
        NullGet(t.kids[k[0] - t.min], k[1..]);
      }
    }
  }

  // ---------------------------------------------------------------- removal of a value

  ghost function Erase(s: Option<set<Pipe>>, p: Pipe): Option<set<Pipe>> {
    if s.Some? && p in s.value then (if s.value == {p} then None else Some(s.value - {p})) else s
  }

  ghost function Prune<A>(t: Tree<A>): Tree<A> {
    if Redundant(t) then Null else t
  }

  // The recursive removal the explicit-stack loop simulates.
  ghost function Rm<A>(t: Tree<A>, p: Pipe): Tree<A>
    decreases t, 1
  {
    if t.Null? then Null
    else Trim(t.(pipes := Erase(t.pipes, p), kids := RmAll(t.kids, p)))
  }

  ghost function RmAll<A>(ts: seq<Tree<A>>, p: Pipe): (r: seq<Tree<A>>)
    ensures |r| == |ts|
    decreases ts, 0
  {
    if ts == [] then [] else [Prune(Rm(ts[0], p))] + RmAll(ts[1..], p)
  }

  lemma {:induction false} RmAllAt<A>(ts: seq<Tree<A>>, p: Pipe, i: int)
    requires 0 <= i < |ts|
    ensures RmAll(ts, p)[i] == Prune(Rm(ts[i], p))
  {
    if i > 0 { RmAllAt(ts[1..], p, i - 1); }
  }

  lemma {:induction false} RmCanonical<A>(t: Tree<A>, p: Pipe)
    requires Canonical(t)
    ensures Canonical(Rm(t, p))
    decreases t
  {
    if t.Tree? {
      var u := t.(pipes := Erase(t.pipes, p), kids := RmAll(t.kids, p));
      forall i | 0 <= i < |u.kids| ensures Canonical(u.kids[i]) && !Redundant(u.kids[i]) {
        RmAllAt(t.kids, p, i);
        RmCanonical(t.kids[i], p);
      }
      TrimCanonical(u);
    }
  }

  lemma PruneGet<A>(t: Tree<A>, k: Key)
    ensures Get(Prune(t), k) == Get(t, k)
  {
    if Redundant(t) { NullGet(t, k); NullGet(Prune(t), k); }
  }

  // Removal of a value takes it out of every key and touches nothing else.
  lemma {:induction false} RmMeaning<A>(t: Tree<A>, p: Pipe, k: Key)
    ensures Get(Rm(t, p), k) == Get(t, k) - {p}
    decreases k
  {
    if t.Null? {
      NullGet(t, k);
    } else {
      var u := t.(pipes := Erase(t.pipes, p), kids := RmAll(t.kids, p));
      TrimMeaning(u);
      assert Get(Rm(t, p), k) == Get(u, k);
      if k != [] && InRange(t, k[0]) {
        var i := k[0] - t.min;
        RmAllAt(t.kids, p, i);
        PruneGet(Rm(t.kids[i], p), k[1..]);
        RmMeaning(t.kids[i], p, k[1..]);
      }
    }
  }

  // ---------------------------------------------------------------- callbacks of that removal

  // Whether the node itself reports: it held `p` and, if only unique values count, nothing else.
  ghost predicate Reports(s: Option<set<Pipe>>, p: Pipe, uniq: bool) {
    s.Some? && p in s.value && (uniq ==> s.value == {p})
  }

  ghost function Calls<A>(t: Tree<A>, p: Pipe, uniq: bool, at: Key): seq<Key>
    decreases t, 1
  {
    if t.Null? then []
    else (if Reports(t.pipes, p, uniq) then [at] else []) + CallsAll(t.kids, t.min, p, uniq, at)
  }

  // The slots of a table from character `c` on.
  ghost function CallsAll<A>(ts: seq<Tree<A>>, c: int, p: Pipe, uniq: bool, at: Key): seq<Key>
    decreases ts, 0
  {
    if ts == [] then []
    else (if 0 <= c < 256 then Calls(ts[0], p, uniq, at + [c]) else [])
         + CallsAll(ts[1..], c + 1, p, uniq, at)
  }

  // Lexicographic order on byte strings: a proper prefix comes first.
  ghost predicate Less(a: Key, b: Key)
    decreases a
  {
    if b == [] then false
    else if a == [] then true
    else a[0] < b[0] || (a[0] == b[0] && Less(a[1..], b[1..]))
  }

  ghost predicate Ascending(ks: seq<Key>) {
    forall i, j :: 0 <= i < j < |ks| ==> Less(ks[i], ks[j])
  }

  // The keys agree up to a point where `a` ends or has the lower character.
  ghost predicate LessAt(a: Key, b: Key, i: nat) {
    && i <= |a| && i < |b| && (i < |a| ==> a[i] < b[i])
    && forall j :: 0 <= j < i ==> a[j] == b[j]
  }

  lemma {:induction false} LessMeans(a: Key, b: Key)
    ensures Less(a, b) <==> exists i: nat :: LessAt(a, b, i)
  {
    if a == [] || b == [] || a[0] != b[0] {
      if Less(a, b) { assert LessAt(a, b, 0); }
    } else {
      LessMeans(a[1..], b[1..]);
      if i: nat :| LessAt(a[1..], b[1..], i) {
        assert forall j :: 1 <= j <= i ==> a[j] == a[1..][j - 1] && b[j] == b[1..][j - 1];
        assert LessAt(a, b, i + 1);
      }
      if i: nat :| LessAt(a, b, i) {
        assert LessAt(a[1..], b[1..], i - 1);
      }
    }
  }

  lemma {:induction false} LessBelow(at: Key, a: Key, b: Key)
    requires Less(a, b)
    ensures Less(at + a, at + b)
    decreases at
  {
    if at == [] {
      assert at + a == a && at + b == b;
    } else {
      LessBelow(at[1..], a, b);
      assert (at + a)[1..] == at[1..] + a && (at + b)[1..] == at[1..] + b;
    }
  }

  // Reported keys are exactly those that held the value ...
  ghost predicate Due<A>(t: Tree<A>, p: Pipe, uniq: bool, k: Key) {
    p in Get(t, k) && (uniq ==> Get(t, k) == {p})
  }

  ghost predicate DueFrom<A>(ts: seq<Tree<A>>, c: int, p: Pipe, uniq: bool, k: Key) {
    k != [] && c <= k[0] < c + |ts| && Due(ts[k[0] - c], p, uniq, k[1..])
  }

  lemma InConcat(a: seq<Key>, b: seq<Key>, x: Key)
    ensures x in a + b <==> x in a || x in b
  {
  }

  lemma {:induction false} CallsDue<A>(t: Tree<A>, p: Pipe, uniq: bool, at: Key, k: Key)
    requires Canonical(t)
    ensures at + k in Calls(t, p, uniq, at) <==> Due(t, p, uniq, k)
    decreases t, 1
  {
    if t.Null? {
      NullGet(t, k);
    } else {
      var own: seq<Key> := if Reports(t.pipes, p, uniq) then [at] else [];
      InConcat(own, CallsAll(t.kids, t.min, p, uniq, at), at + k);
      CallsAllDue(t.kids, t.min, p, uniq, at, k);
      assert at + k == at <==> k == [] by { assert |at + k| == |at| + |k|; }
      if k != [] { DueKid(t, p, uniq, k); }
    }
  }

  lemma DueKid<A>(t: Tree<A>, p: Pipe, uniq: bool, k: Key)
    requires t.Tree? && k != []
    ensures Due(t, p, uniq, k) <==> DueFrom(t.kids, t.min, p, uniq, k)
  {
  }

  lemma {:induction false} CallsAllDue<A>(ts: seq<Tree<A>>, c: int, p: Pipe, uniq: bool, at: Key, k: Key)
    requires forall i :: 0 <= i < |ts| ==> Canonical(ts[i])
    requires 0 <= c && c + |ts| <= 256
    ensures at + k in CallsAll(ts, c, p, uniq, at) <==> DueFrom(ts, c, p, uniq, k)
    decreases ts, 0
  {
    if ts != [] {
      var head, rest := Calls(ts[0], p, uniq, at + [c]), CallsAll(ts[1..], c + 1, p, uniq, at);
      InConcat(head, rest, at + k);
      CallsAllDue(ts[1..], c + 1, p, uniq, at, k);
      HeadDue(ts[0], c, p, uniq, at, k);
      DueFromStep(ts, c, p, uniq, k);
    }
  }

  lemma DueFromStep<A>(ts: seq<Tree<A>>, c: int, p: Pipe, uniq: bool, k: Key)
    requires ts != []
    ensures DueFrom(ts, c, p, uniq, k) <==>
            (k != [] && k[0] == c && Due(ts[0], p, uniq, k[1..])) || DueFrom(ts[1..], c + 1, p, uniq, k)
  {
  }

  lemma {:induction false} HeadDue<A>(t: Tree<A>, c: Byte, p: Pipe, uniq: bool, at: Key, k: Key)
    requires Canonical(t)
    ensures at + k in Calls(t, p, uniq, at + [c]) <==> k != [] && k[0] == c && Due(t, p, uniq, k[1..])
    decreases t, 2
  {
    PrefixStep(at, c, k);
    if k != [] && k[0] == c {
      CallsDue(t, p, uniq, at + [c], k[1..]);
      assert at + [c] + k[1..] == at + k;
    } else if at + k in Calls(t, p, uniq, at + [c]) {
      CallsBelow(t, p, uniq, at + [c], at + k);
      assert false;
    }
  }

  lemma PrefixStep(at: Key, c: Byte, k: Key)
    ensures at + [c] <= at + k <==> k != [] && k[0] == c
  {
    if at + [c] <= at + k {
      assert (at + k)[|at|] == (at + [c])[|at|];
    }
  }

  lemma {:induction false} CallsBelow<A>(t: Tree<A>, p: Pipe, uniq: bool, at: Key, k: Key)
    requires k in Calls(t, p, uniq, at)
    ensures at <= k
    decreases t, 1
  {
    var own: seq<Key> := if Reports(t.pipes, p, uniq) then [at] else [];
    var rest := CallsAll(t.kids, t.min, p, uniq, at);
    if k !in own {
      assert k in rest;
      CallsAllBelow(t.kids, t.min, p, uniq, at, k);
    }
  }

  // ... and slots from character `c` on report only keys that continue with `c` or above.
  lemma {:induction false} CallsAllBelow<A>(ts: seq<Tree<A>>, c: int, p: Pipe, uniq: bool, at: Key, k: Key)
    requires k in CallsAll(ts, c, p, uniq, at)
    ensures at < k && c <= k[|at|]
    decreases ts, 0
  {
    var head: seq<Key> := if 0 <= c < 256 then Calls(ts[0], p, uniq, at + [c]) else [];
    if k in head {
      CallsBelow(ts[0], p, uniq, at + [c], k);
      assert k[|at|] == c;
      assert at <= at + [c] <= k;
    } else {
      CallsAllBelow(ts[1..], c + 1, p, uniq, at, k);
    }
  }

  lemma Joined(a: seq<Key>, b: seq<Key>)
    requires Ascending(a) && Ascending(b)
    requires forall x, y :: x in a && y in b ==> Less(x, y)
    ensures Ascending(a + b)
  {
    forall i, j | 0 <= i < j < |a + b| ensures Less((a + b)[i], (a + b)[j]) {
      if i < |a| <= j {
        assert a[i] in a && b[j - |a|] in b;
      }
    }
  }

  lemma SplitLess(at: Key, x: Key, y: Key)
    requires at < x && at < y && x[|at|] < y[|at|]
    ensures Less(x, y)
  {
    assert x == at + x[|at|..] && y == at + y[|at|..];
    LessBelow(at, x[|at|..], y[|at|..]);
  }

  lemma {:induction false} CallsAscending<A>(t: Tree<A>, p: Pipe, uniq: bool, at: Key)
    ensures Ascending(Calls(t, p, uniq, at))
    decreases t, 1
  {
    if t.Tree? {
      var own: seq<Key> := if Reports(t.pipes, p, uniq) then [at] else [];
      var rest := CallsAll(t.kids, t.min, p, uniq, at);
      CallsAllAscending(t.kids, t.min, p, uniq, at);
      forall x, y | x in own && y in rest ensures Less(x, y) {
        CallsAllBelow(t.kids, t.min, p, uniq, at, y);
        assert y == at + y[|at|..];
        LessBelow(at, [], y[|at|..]);
        assert at + [] == at;
      }
      Joined(own, rest);
    }
  }

  lemma {:induction false} CallsAllAscending<A>(ts: seq<Tree<A>>, c: int, p: Pipe, uniq: bool, at: Key)
    ensures Ascending(CallsAll(ts, c, p, uniq, at))
    decreases ts, 0
  {
    if ts != [] {
      var head: seq<Key> := if 0 <= c < 256 then Calls(ts[0], p, uniq, at + [c]) else [];
      var rest := CallsAll(ts[1..], c + 1, p, uniq, at);
      if 0 <= c < 256 { CallsAscending(ts[0], p, uniq, at + [c]); }
      CallsAllAscending(ts[1..], c + 1, p, uniq, at);
      forall x, y | x in head && y in rest ensures Less(x, y) {
        HeadFirst(ts[0], ts[1..], c, p, uniq, at, x, y);
      }
      Joined(head, rest);
    }
  }

  lemma HeadFirst<A>(t: Tree<A>, ts: seq<Tree<A>>, c: Byte, p: Pipe, uniq: bool, at: Key, x: Key, y: Key)
    requires x in Calls(t, p, uniq, at + [c]) && y in CallsAll(ts, c + 1, p, uniq, at)
    ensures Less(x, y)
  {
    CallsBelow(t, p, uniq, at + [c], x);
    CallsAllBelow(ts, c + 1, p, uniq, at, y);
    assert x[|at|] == c && at <= at + [c] <= x;
    SplitLess(at, x, y);
  }
}
