/**
  The subscription multi-trie as its owners use it (generic_mtrie_t, ExternalLib/libzmq/src/
  generic_mtrie.hpp:42-114): adding and removing subscriptions, and finding the pipes that
  a message matches.  All four operations are stated on the plain map from keys to sets of
  pipes that the trie stands for.
 */
module Mtrie {
  import opened Wrappers
  import opened MtrieShape
  import opened MtrieZipper
  import opened MtrieNode
  import opened MtrieHeap
  import A = MtrieAdd
  import K = MtrieRmKey
  import V = MtrieRmValue

  // ---------------------------------------------------------------- matching

  ghost predicate Least(s: set<Pipe>, x: Pipe) {
    x in s && forall y :: y in s ==> x <= y
  }

  lemma {:induction false} HasLeast(s: set<Pipe>) returns (x: Pipe)
    requires s != {}
    ensures Least(s, x)
    decreases |s|
  {
    x :| x in s;
    var rest := s - {x};
    if rest != {} {
      var y := HasLeast(rest);
      assert forall z :: z in s ==> z == x || z in rest;
      if y < x { x := y; }
    } else {
      assert s == {x};
    }
  }

  // The order in which std::set hands out its elements.
  ghost function Ascend(s: set<Pipe>): seq<Pipe>
    decreases |s|
  {
    if s == {} then []
    else
      assert exists x :: Least(s, x) by { var x := HasLeast(s); }
      var x :| Least(s, x);
      [x] + Ascend(s - {x})
  }

  lemma {:induction false} AscendSound(s: set<Pipe>)
    ensures forall x :: x in Ascend(s) <==> x in s
    ensures forall i, j :: 0 <= i < j < |Ascend(s)| ==> Ascend(s)[i] < Ascend(s)[j]
    decreases |s|
  {
    if s != {} {
      var x := HasLeast(s);
      AscendSound(s - {x});
      Ascended(s, x, Ascend(s - {x}));
      assert Ascend(s) == [x] + Ascend(s - {x});
    }
  }

  lemma Ascended(s: set<Pipe>, x: Pipe, r: seq<Pipe>)
    requires Least(s, x) && (forall y :: y in r <==> y in s - {x})
    requires forall i, j :: 0 <= i < j < |r| ==> r[i] < r[j]
    ensures forall y :: y in [x] + r <==> y in s
    ensures forall i, j :: 0 <= i < j < |[x] + r| ==> ([x] + r)[i] < ([x] + r)[j]
  {
    forall j | 0 <= j < |r| ensures x < r[j] {
      assert r[j] in s - {x};
    }
    forall y ensures y in [x] + r <==> y in s {
      assert y in [x] + r <==> y == x || y in r;
    }
  }

  // The callbacks for the prefixes of `data` of length `i` and longer, shortest first.
  ghost function Hits(m: Contents, data: Key, i: nat): seq<Pipe>
    decreases |data| + 1 - i
  {
    if i > |data| then [] else Ascend(K.At(m, data[..i])) + Hits(m, data, i + 1)
  }

  lemma {:induction false} NoHits(m: Contents, data: Key, i: nat)
    requires forall j :: i <= j <= |data| ==> data[..j] !in m
    ensures Hits(m, data, i) == []
    decreases |data| + 1 - i
  {
    if i <= |data| { NoHits(m, data, i + 1); }
  }

  method CallBack(s: set<Pipe>) returns (calls: seq<Pipe>)
    ensures calls == Ascend(s)
  {
    calls := [];
    var rest := s;
    while rest != {}
      invariant calls + Ascend(rest) == Ascend(s)
      decreases |rest|
    {
      ghost var l := HasLeast(rest);
      var x :| x in rest && forall y :: y in rest ==> x <= y;
      assert Least(rest, x);
      AscendStep(rest, x, calls);
      calls := calls + [x];
      rest := rest - {x};
    }
    assert Ascend({}) == [] && calls + [] == calls;
  }

  lemma AscendStep(s: set<Pipe>, x: Pipe, calls: seq<Pipe>)
    requires Least(s, x)
    ensures calls + Ascend(s) == calls + [x] + Ascend(s - {x})
  {
    assert Ascend(s) == [x] + Ascend(s - {x});
  }

  // `cur` is the node of data[..i].
  ghost predicate On<N>(t: Tree<N>, cur: Tree<N>, data: Key, i: nat) {
    i <= |data| && forall r: Key :: Get(cur, r) == Get(t, data[..i] + r)
  }

  lemma OnNext<N>(t: Tree<N>, cur: Tree<N>, data: Key, i: nat)
    requires On(t, cur, data, i) && i < |data| && InRange(cur, data[i])
    ensures On(t, cur.kids[data[i] - cur.min], data, i + 1)
  {
    var kid := cur.kids[data[i] - cur.min];
    forall r: Key ensures Get(kid, r) == Get(t, data[..i + 1] + r) {
      assert data[..i + 1] + r == data[..i] + ([data[i]] + r);
      assert ([data[i]] + r)[1..] == r;
    }
  }

  // Nothing below: the walk stops here.
  lemma OnStop<N>(t: Tree<N>, cur: Tree<N>, data: Key, i: nat)
    requires On(t, cur, data, i)
    requires i < |data| && InRange(cur, data[i]) ==> cur.kids[data[i] - cur.min].Null?
    ensures Hits(ContentsOf(t), data, i + 1) == []
  {
    forall j | i + 1 <= j <= |data| ensures data[..j] !in ContentsOf(t) {
      var r := data[i..j];
      assert data[..j] == data[..i] + r;
      if InRange(cur, data[i]) { NullGet(cur.kids[data[i] - cur.min], r[1..]); }
    }
    NoHits(ContentsOf(t), data, i + 1);
  }

  lemma OnHit<N>(t: Tree<N>, cur: Tree<N>, data: Key, i: nat)
    requires On(t, cur, data, i)
    ensures K.At(ContentsOf(t), data[..i]) == Values(cur)
    ensures Hits(ContentsOf(t), data, i) == Ascend(Values(cur)) + Hits(ContentsOf(t), data, i + 1)
  {
    assert data[..i] + [] == data[..i];
    assert Get(cur, []) == Get(t, data[..i]);
  }

  // The pipes are handed to the callback node by node along `data`.
  method MatchAlong(root: GenericMtrie, data: Key, ghost t: Shape) returns (calls: seq<Pipe>)
    requires IsTrie(root, t)
    ensures calls == Hits(ContentsOf(t), data, 0)
  {
    hide Matching, Called, Spelled, Hits;
    calls := [];
    var current: GenericMtrie? := root;
    var i := 0;
    ghost var cur := t;
    MatchingStart(root, data, t);
    while current != null
      invariant Matching(t, cur, data, i, calls) && Spelled(cur) && Addr(cur) == current
      decreases |data| + 1 - i
    {
      AllAllocated(Nodes(cur));
      MatchingCalled(t, cur, data, i, calls);
      var more := CallNode(current, cur);
      calls := calls + more;
      if i == |data| {
        MatchingStop(t, cur, data, i, calls);
        break;
      }
      var inRange, next := NextNode(current, data[i], cur);
      if !inRange {
        MatchingStop(t, cur, data, i, calls);
        break;
      }
      MatchingNext(t, cur, data, i, calls);
      current, cur, i := next, cur.kids[data[i] - cur.min], i + 1;
    }
    if cur.Null? { MatchingEnd(t, cur, data, i, calls); }
  }

  // The pipes of one node.
  method CallNode(n: GenericMtrie, ghost cur: Shape) returns (calls: seq<Pipe>)
    requires cur.Tree? && n == cur.node && Spelled(cur)
    ensures calls == Ascend(Values(cur))
  {
    SpelledTable(cur);
    calls := [];
    if n.pipes.Some? {
      calls := CallBack(n.pipes.value);
    }
  }

  // The slot for the next character, if the table has one.
  method NextNode(n: GenericMtrie, c: Byte, ghost cur: Shape) returns (inRange: bool, next: GenericMtrie?)
    requires cur.Tree? && n == cur.node && Spelled(cur)
    ensures inRange <==> InRange(cur, c)
    ensures inRange ==> next == Addr(cur.kids[c - cur.min]) && Spelled(cur.kids[c - cur.min])
  {
    SpelledTable(cur);
    if n.count == 0 || c < n.min || c >= n.min + n.count {
      return false, null;
    }
    OpenSpelled(cur, c - cur.min);
    return true, n.SlotAt(c - n.min);
  }

  // What the walk keeps: all callbacks of prefixes shorter than `i` are made, the others are ahead.
  ghost predicate Matching<N>(t: Tree<N>, cur: Tree<N>, data: Key, i: nat, calls: seq<Pipe>) {
    && i <= |data| + 1
    && if cur.Tree? then On(t, cur, data, i) && calls + Hits(ContentsOf(t), data, i) == Hits(ContentsOf(t), data, 0)
       else calls == Hits(ContentsOf(t), data, 0)
  }

  // The pipes of `cur` have just been added to `calls`.
  ghost predicate Called<N>(t: Tree<N>, cur: Tree<N>, data: Key, i: nat, calls: seq<Pipe>) {
    && cur.Tree? && On(t, cur, data, i)
    && calls + Hits(ContentsOf(t), data, i + 1) == Hits(ContentsOf(t), data, 0)
  }

  lemma MatchingCalled<N>(t: Tree<N>, cur: Tree<N>, data: Key, i: nat, calls: seq<Pipe>)
    requires Matching(t, cur, data, i, calls) && cur.Tree?
    ensures i <= |data| && Called(t, cur, data, i, calls + Ascend(Values(cur)))
  {
    OnHit(t, cur, data, i);
    var a, b := Ascend(Values(cur)), Hits(ContentsOf(t), data, i + 1);
    assert calls + (a + b) == calls + a + b;
  }

  lemma MatchingStart(root: GenericMtrie, data: Key, t: Shape)
    requires IsTrie(root, t)
    ensures Matching(t, t, data, 0, []) && Spelled(t) && Addr(t) == root && t.Tree?
  {
    hide Hits, Canonical, On;
    OnStart(t, data);
    assert [] + Hits(ContentsOf(t), data, 0) == Hits(ContentsOf(t), data, 0);
  }

  lemma MatchingEnd<N>(t: Tree<N>, cur: Tree<N>, data: Key, i: nat, calls: seq<Pipe>)
    requires Matching(t, cur, data, i, calls) && cur.Null?
    ensures calls == Hits(ContentsOf(t), data, 0)
  {
  }

  lemma MatchingStop<N>(t: Tree<N>, cur: Tree<N>, data: Key, i: nat, calls: seq<Pipe>)
    requires Called(t, cur, data, i, calls)
    requires i < |data| ==> !InRange(cur, data[i])
    ensures calls == Hits(ContentsOf(t), data, 0)
  {
    OnStop(t, cur, data, i);
    assert calls + [] == calls;
  }

  lemma MatchingNext<N>(t: Tree<N>, cur: Tree<N>, data: Key, i: nat, calls: seq<Pipe>)
    requires Called(t, cur, data, i, calls) && i < |data| && InRange(cur, data[i])
    ensures Matching(t, cur.kids[data[i] - cur.min], data, i + 1, calls)
  {
    if cur.kids[data[i] - cur.min].Tree? {
      OnNext(t, cur, data, i);
    } else {
      OnStop(t, cur, data, i);
      assert calls + [] == calls;
    }
  }

  lemma SpelledTable(cur: Shape)
    requires cur.Tree? && Spelled(cur)
    ensures var n := cur.node;
            && n.Ok() && n.min == cur.min && n.count == |cur.kids| && n.pipes == cur.pipes
            && n.Slots() == Addrs(cur.kids)
            && SpelledAll(cur.kids)
  {
  }

  lemma OnStart<N>(t: Tree<N>, data: Key)
    ensures On(t, t, data, 0)
  {
    forall r: Key ensures Get(t, r) == Get(t, data[..0] + r) {
      assert data[..0] + r == r;
    }
  }

  // The prefixes of `data` from length `i` on that hold pipe `v`.
  ghost function Holding(m: Contents, data: Key, i: nat, v: Pipe): set<nat> {
    set j: nat | i <= j <= |data| && v in K.At(m, data[..j])
  }

  // A pipe is called back once for each prefix of the message it subscribed to.
  lemma {:induction false} HitsCount(m: Contents, data: Key, i: nat, v: Pipe)
    ensures multiset(Hits(m, data, i))[v] == |Holding(m, data, i, v)|
    decreases |data| + 1 - i
  {
    if i <= |data| {
      HitsCount(m, data, i + 1, v);
      AscendCount(K.At(m, data[..i]), v);
      HoldingStep(m, data, i, v);
    } else {
      assert Holding(m, data, i, v) == {};
    }
  }

  lemma HoldingStep(m: Contents, data: Key, i: nat, v: Pipe)
    requires i <= |data|
    ensures |Holding(m, data, i, v)| == |Holding(m, data, i + 1, v)| + if v in K.At(m, data[..i]) then 1 else 0
  {
    hide K.At;
    var all, rest := Holding(m, data, i, v), Holding(m, data, i + 1, v);
    assert i !in rest;
    if v in K.At(m, data[..i]) {
      assert all == rest + {i};
    } else {
      assert all == rest;
    }
  }

  lemma {:induction false} AscendCount(s: set<Pipe>, v: Pipe)
    ensures multiset(Ascend(s))[v] == if v in s then 1 else 0
    decreases |s|
  {
    if s != {} {
      var x := HasLeast(s);
      assert Ascend(s) == [x] + Ascend(s - {x});
      AscendCount(s - {x}, v);
    }
  }

  // ---------------------------------------------------------------- the trie and its runs

  datatype Op = AddOp(key: Key, pipe: Pipe) | RmKeyOp(key: Key, pipe: Pipe) | RmValueOp(pipe: Pipe, uniq: bool)

  // The same operation on the plain map.
  ghost function Apply(m: Contents, op: Op): Contents {
    match op
    case AddOp(k, p) => A.AddSpec(m, k, p)
    case RmKeyOp(k, p) => K.RmKeySpec(m, k, p)
    case RmValueOp(p, _) => V.RmValueSpec(m, p)
  }

  ghost function ApplyAll(m: Contents, ops: seq<Op>): Contents {
    if ops == [] then m else Apply(ApplyAll(m, ops[..|ops| - 1]), ops[|ops| - 1])
  }

  lemma ApplyOne(m: Contents, ops: seq<Op>, i: nat)
    requires i < |ops|
    ensures ApplyAll(m, ops[..i + 1]) == Apply(ApplyAll(m, ops[..i]), ops[i])
  {
    assert ops[..i + 1][..i] == ops[..i];
  }

  class Trie {
    const root: GenericMtrie
    // All nodes below `root`, as a tree.
    ghost var shape: Shape

    ghost predicate Valid()
      reads this, Nodes(shape)
    {
      IsTrie(root, shape)
    }

    constructor ()
      ensures Valid() && fresh(Nodes(shape)) && ContentsOf(shape) == imap[]
    {
      root := new GenericMtrie();
      new;
      shape := Tree(root, None, root.min, []);
      assert root.Ok() && Addrs(shape.kids) == root.Slots();
      assert Holds(root, None, root.min, Addrs(shape.kids));
      assert FramesNodes<GenericMtrie>([]) == {};
      assert Spells([], shape);
      assert forall k: Key :: Get(shape, k) == {};
    }

    method Add(prefix: Key, pipe: Pipe) returns (result: bool)
      requires Valid()
      modifies this, Nodes(shape)
      ensures Valid() && fresh(Nodes(shape) - old(Nodes(shape)))
      ensures ContentsOf(shape) == A.AddSpec(old(ContentsOf(shape)), prefix, pipe)
      ensures result <==> prefix !in old(ContentsOf(shape))
    {
      var r, t := A.Add(root, prefix, pipe, shape);
      shape := t;
      return r;
    }

    method RmKey(prefix: Key, pipe: Pipe) returns (ret: K.RmResult)
      requires Valid()
      modifies this, Nodes(shape)
      ensures Valid() && Nodes(shape) <= old(Nodes(shape))
      ensures ContentsOf(shape) == K.RmKeySpec(old(ContentsOf(shape)), prefix, pipe)
      ensures ret == K.Verdict(K.At(old(ContentsOf(shape)), prefix), pipe)
    {
      var r, t := K.RmKey(root, prefix, pipe, shape);
      shape := t;
      return r;
    }

    // Callbacks come in ascending key order, once for each key that held the pipe; with
    // `callOnUniq`, only where it was the last one.
    method RmValue(pipe: Pipe, callOnUniq: bool) returns (calls: seq<Key>)
      requires Valid()
      modifies this, Nodes(shape)
      ensures Valid() && Nodes(shape) <= old(Nodes(shape))
      ensures ContentsOf(shape) == V.RmValueSpec(old(ContentsOf(shape)), pipe)
      ensures Ascending(calls)
      ensures forall k: Key :: k in calls <==>
                pipe in K.At(old(ContentsOf(shape)), k) && (callOnUniq ==> K.At(old(ContentsOf(shape)), k) == {pipe})
    {
      ghost var t := shape;
      var c, t' := V.RmValue(root, pipe, callOnUniq, shape);
      shape := t';
      V.RmValueMeaning(t, pipe);
      CallsAscending(t, pipe, callOnUniq, []);
      CallsExact(t, pipe, callOnUniq);
      return c;
    }

    method Match(data: Key) returns (calls: seq<Pipe>)
      requires Valid()
      ensures calls == Hits(ContentsOf(shape), data, 0)
    {
      calls := MatchAlong(root, data, shape);
    }

    method Step(op: Op)
      requires Valid()
      modifies this, Nodes(shape)
      ensures Valid() && forall n :: n in Nodes(shape) ==> n in old(Nodes(shape)) || fresh(n)
      ensures ContentsOf(shape) == Apply(old(ContentsOf(shape)), op)
    {
      match op
      case AddOp(k, p) => var _ := Add(k, p);
      case RmKeyOp(k, p) => var _ := RmKey(k, p);
      case RmValueOp(p, uniq) => var _ := RmValue(p, uniq);
    }

    // Any run of operations does to the trie what it does to the plain map.
    method Run(ops: seq<Op>)
      requires Valid()
      modifies this, Nodes(shape)
      ensures Valid() && forall n :: n in Nodes(shape) ==> n in old(Nodes(shape)) || fresh(n)
      ensures ContentsOf(shape) == ApplyAll(old(ContentsOf(shape)), ops)
    {
      ghost var m := ContentsOf(shape);
      for i := 0 to |ops|
        invariant Valid() && forall n :: n in Nodes(shape) ==> n in old(Nodes(shape)) || fresh(n)
        invariant ContentsOf(shape) == ApplyAll(m, ops[..i])
      {
        ApplyOne(m, ops, i);
        Step(ops[i]);
      }
      assert ops[..|ops|] == ops;
    }

    // Adding a new entry and removing it again restores the trie, table by table.
    method AddThenRemove(prefix: Key, pipe: Pipe)
      requires Valid() && pipe !in K.At(ContentsOf(shape), prefix)
      modifies this, Nodes(shape)
      ensures Valid() && SameTrie(shape, old(shape))
    {
      ghost var t := shape;
      var _ := Add(prefix, pipe);
      var _ := RmKey(prefix, pipe);
      AddRm(ContentsOf(t), prefix, pipe);
      SameLayout(shape, t);
    }
  }

  lemma CallsExact<N>(t: Tree<N>, pipe: Pipe, uniq: bool)
    requires Canonical(t)
    ensures forall k: Key :: k in Calls(t, pipe, uniq, []) <==>
              pipe in K.At(ContentsOf(t), k) && (uniq ==> K.At(ContentsOf(t), k) == {pipe})
  {
    forall k: Key ensures k in Calls(t, pipe, uniq, []) <==>
        pipe in K.At(ContentsOf(t), k) && (uniq ==> K.At(ContentsOf(t), k) == {pipe})
    {
      CallsDue(t, pipe, uniq, [], k);
      assert [] + k == k;
    }
  }

  lemma AddRm(m: Contents, k: Key, p: Pipe)
    requires p !in K.At(m, k) && (k in m ==> m[k] != {})
    ensures K.RmKeySpec(A.AddSpec(m, k, p), k, p) == m
  {
    var n := A.AddSpec(m, k, p);
    assert K.At(n, k) - {p} == K.At(m, k);
    assert k in m ==> n[k] != {p};
  }

  // The layout of a trie depends on its contents only.
  lemma SameLayout<N>(t: Tree<N>, u: Tree<N>)
    requires t.Tree? && u.Tree? && Canonical(t) && Canonical(u) && ContentsOf(t) == ContentsOf(u)
    ensures SameTrie(t, u)
  {
    forall k: Key ensures Get(t, k) == Get(u, k) {
      assert K.At(ContentsOf(t), k) == Get(t, k);
      assert K.At(ContentsOf(u), k) == Get(u, k);
    }
    CanonicalUnique(t, u);
  }
}
