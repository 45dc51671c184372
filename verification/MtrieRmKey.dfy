/**
  generic_mtrie_t::rm of one key (ExternalLib/libzmq/src/generic_mtrie_impl.hpp:400-539): an
  explicit stack walks down to the node of the key and back up, deleting redundant nodes.
 */
module MtrieRmKey {
  import opened Wrappers
  import opened MtrieShape
  import opened MtrieZipper
  import opened MtrieNode
  import opened MtrieHeap

  datatype RmResult = NotFound | LastValueRemoved | ValuesRemain

  ghost function At(m: Contents, k: Key): set<Pipe> {
    if k in m then m[k] else {}
  }

  ghost function RmKeySpec(m: Contents, k: Key, p: Pipe): Contents {
    if p !in At(m, k) then m
    else if m[k] == {p} then imap j | j in m && j != k :: m[j]
    else m[k := m[k] - {p}]
  }

  // The three results of `rm` of a key, from what the key held.
  ghost function Verdict(s: set<Pipe>, p: Pipe): RmResult {
    if p !in s then NotFound else if s == {p} then LastValueRemoved else ValuesRemain
  }

  method RmKey(root: GenericMtrie, prefix: Key, pipe: Pipe, ghost t: Shape) returns (ret: RmResult, ghost t': Shape)
    requires IsTrie(root, t)
    modifies Nodes(t)
    ensures IsTrie(root, t') && Nodes(t') <= Nodes(t)
    ensures ContentsOf(t') == RmKeySpec(ContentsOf(t), prefix, pipe)
    ensures ret == Verdict(At(ContentsOf(t), prefix), pipe)
  {
    ret := NotFound;
    var stack := [Iter(root, null, prefix, |prefix|, 0, 0, 0, false)];
    ghost var fs: Frames := [];
    ghost var cur := t;
    ghost var down := true;
    while stack != []
      invariant RmState(stack, t, fs, cur, prefix, pipe, down, ret)
      decreases RmMeasure(prefix, fs, down)
    {
      if !stack[|stack| - 1].processed {
        if stack[|stack| - 1].size == 0 {
          stack, ret, cur := VisitEnd(stack, pipe, ret, t, fs, cur, prefix);
          down := false;
        } else {
          stack, ret, fs, cur, down := VisitNext(stack, pipe, ret, t, fs, cur, prefix);
        }
      } else {
        stack, fs, cur := Return(stack, pipe, ret, t, fs, cur, prefix);
      }
    }
    RemovingEnd(t, fs, cur, prefix, pipe, ret);
    t' := cur;
  }

  // The loop body of `rm` of a key at an entry that is not processed yet: at its end ...
  method VisitEnd(stack: seq<Iter>, pipe: Pipe, ghost ret: RmResult, ghost t0: Shape,
                  ghost fs: Frames, ghost cur: Shape, ghost key: Key)
    returns (stack': seq<Iter>, ret': RmResult, ghost cur': Shape)
    requires RmState(stack, t0, fs, cur, key, pipe, true, ret) && stack[|stack| - 1].size == 0
    modifies Nodes(t0)
    ensures RmState(stack', t0, fs, cur', key, pipe, false, ret')
  {
    var it := stack[|stack| - 1];
    stack' := stack[..|stack| - 1];
    StackedTop(stack, fs, cur.node, true, key);
    ret', cur' := EraseHere(it.node, pipe, fs, cur);
    RemovingErase(t0, fs, cur, key, pipe, ret, cur', ret');
  }

  // ... and on the way.
  method VisitNext(stack: seq<Iter>, ghost pipe: Pipe, ret: RmResult, ghost t0: Shape,
                   ghost fs: Frames, ghost cur: Shape, ghost key: Key)
    returns (stack': seq<Iter>, ret': RmResult,
             ghost fs': Frames, ghost cur': Shape, ghost down: bool)
    requires RmState(stack, t0, fs, cur, key, pipe, true, ret) && stack[|stack| - 1].size > 0
    ensures RmState(stack', t0, fs', cur', key, pipe, down, ret')
    ensures RmMeasure(key, fs', down) < RmMeasure(key, fs, true)
  {
    hide RmState;
    VisitTop(stack, t0, fs, cur, key, pipe, ret);
    var it := stack[|stack| - 1];
    var c := it.prefix[0];
    var n := it.node.NextFor(c);
    stack' := stack[..|stack| - 1];
    if n == null {
      VisitMiss(stack, t0, fs, cur, key, pipe, ret);
      ret', fs', cur', down := NotFound, fs, cur, false;
    } else {
      VisitDown(stack, t0, fs, cur, key, pipe, ret);
      stack' := stack' + Pushed(it, c, n);
      ret', fs', cur', down := ret, fs + [Open(cur, c - cur.min)], cur.kids[c - cur.min], true;
    }
  }

  // The top entry is that of the current node, with the rest of the key.
  lemma VisitTop(stack: seq<Iter>, t: Shape, fs: Frames, cur: Shape, key: Key, p: Pipe, ret: RmResult)
    requires RmState(stack, t, fs, cur, key, p, true, ret) && stack[|stack| - 1].size > 0
    ensures stack != []
    ensures var it := stack[|stack| - 1];
            && cur.Tree? && it.node == cur.node && it.node.Ok() && |fs| < |key|
            && it.prefix != [] && it.prefix[0] == key[|fs|]
            && it.node.NextFor(key[|fs|]) ==
               if InRange(cur, key[|fs|]) && cur.kids[key[|fs|] - cur.min].Tree?
               then cur.kids[key[|fs|] - cur.min].node else null
  {
    hide Removing;
    StackedTop(stack, fs, cur.node, true, key);
    SpelledNext(cur, key[|fs|]);
  }

  // The entry pushed back, marked, and the entry of its child.
  function Pushed(it: Iter, c: Byte, n: GenericMtrie): seq<Iter>
    requires it.prefix != [] && it.size > 0
  {
    [it.(currentChild := c, nextNode := n, processed := true),
     Iter(n, null, it.prefix[1..], it.size - 1, 0, 0, 0, false)]
  }

  // The loop body of `rm` of a key at an entry whose child has been visited.
  method Return(stack: seq<Iter>, pipe: Pipe, ghost ret: RmResult, ghost t0: Shape,
                ghost fs: Frames, ghost cur: Shape, ghost key: Key)
    returns (stack': seq<Iter>, ghost fs': Frames, ghost cur': Shape)
    requires RmState(stack, t0, fs, cur, key, pipe, false, ret) && stack != []
    modifies Nodes(t0)
    ensures RmState(stack', t0, fs', cur', key, pipe, false, ret)
    ensures RmMeasure(key, fs', false) < RmMeasure(key, fs, false)
  {
    hide Removing, Spells;
    var it := stack[|stack| - 1];
    stack' := stack[..|stack| - 1];
    StackedTop(stack, fs, cur.node, false, key);
    ghost var f := fs[|fs| - 1];
    fs' := fs[..|fs| - 1];
    assert fs' + [f] == fs;
    RemovingFrame(t0, fs', f, cur, key, pipe, ret);
    cur' := Release(it.node, it.currentChild, it.nextNode, fs', f, cur);
    RemovingUp(t0, fs', f, cur, key, pipe, ret);
  }

  // The end of `rm` of a key: the node of the prefix loses the pipe.
  method EraseHere(it: GenericMtrie, pipe: Pipe, ghost fs: Frames, ghost cur: Shape)
    returns (ret: RmResult, ghost u: Shape)
    requires cur.Tree? && cur.node == it && Spells(fs, cur) && Canonical(cur)
    modifies it
    ensures u == cur.(pipes := Erase(cur.pipes, pipe)) && Spells(fs, u)
    ensures ret == Verdict(Values(cur), pipe)
  {
    u := cur.(pipes := Erase(cur.pipes, pipe));
    if it.pipes.None? {
      return NotFound, u;
    }
    var erased := if pipe in it.pipes.value then 1 else 0;
    assert pipe !in it.pipes.value ==> it.pipes.value - {pipe} == it.pipes.value;
    it.pipes := Some(it.pipes.value - {pipe});
    if it.pipes.value == {} {
      assert erased == 1;
      it.pipes := None;
      return LastValueRemoved, u;
    }
    ret := if erased == 1 then ValuesRemain else NotFound;
  }

  // The post-visit step of `rm` of a key.
  method Release(it: GenericMtrie, c: Byte, child: GenericMtrie, ghost fs: Frames,
                 ghost f: Frame<GenericMtrie>, ghost cur: Shape)
    returns (ghost u: Shape)
    requires Spells(fs + [f], cur) && CanonicalFrame(f) && f.node == it && f.min + |f.left| == c
    requires cur.Tree? && cur.node == child && Canonical(cur)
    modifies it
    ensures u == Released(f, cur) && Spells(fs, u) && NodesAt(fs, u) <= NodesAt(fs + [f], cur)
  {
    SpelledRedundant(cur);
    u := Released(f, cur);
    if child.IsRedundant() {
      ReleaseRedundant(it, c, fs, f, cur);
    } else {
      SpellsStep(fs, f, cur);
      SepStep(fs, f, cur);
    }
  }

  method ReleaseRedundant(it: GenericMtrie, c: Byte, ghost fs: Frames,
                          ghost f: Frame<GenericMtrie>, ghost cur: Shape)
    requires Spells(fs + [f], cur) && CanonicalFrame(f) && f.node == it && f.min + |f.left| == c
    requires cur.Tree?
    modifies it
    ensures var u := Trim(Fill(f, Null)); Spells(fs, u) && NodesAt(fs, u) <= NodesAt(fs + [f], cur)
  {
    hide Canonical, Fine, SepFrames, SpelledFrames, Sep;
    SpellsEmptied(fs, f, cur);
    ReleasedSlots(f, cur);
    AllAllocated(AroundNodes(fs, f, Null));
    it.DropChild(c);
    assert Around(fs, f, Null);
    SpellsTrim(fs, f);
  }

  // ---------------------------------------------------------------- releasing a child

  // A frame with a redundant child loses that child; its table is trimmed.
  ghost function Released<A>(f: Frame<A>, cur: Tree<A>): Tree<A> {
    if Redundant(cur) then Trim(Fill(f, Null)) else Fill(f, cur)
  }

  lemma ReleasedSlots(f: Frame<GenericMtrie>, cur: Shape)
    requires cur.Tree? && CanonicalFrame(f)
    requires Holds(f.node, f.pipes, f.min, Addrs(f.left) + [Addr(cur)] + Addrs(f.right))
    ensures var s := f.node.Slots();
            && |s| == f.node.count > |f.left| && s[0] != null && s[|s| - 1] != null && s[|f.left|] != null
            && s[|f.left| := null] == Addrs(Fill(f, Null).kids)
  {
    hide Canonical, Fine;
    var s := f.node.Slots();
    if f.left != [] { assert s[0] == Addr(f.left[0]); }
    if f.right != [] { assert s[|s| - 1] == Addr(f.right[|f.right| - 1]); }
  }

  lemma ReleasedFine<A>(f: Frame<A>, cur: Tree<A>)
    requires CanonicalFrame(f) && cur.Tree? && Canonical(cur)
    ensures Canonical(Released(f, cur)) && SameMeaning(Fill(f, cur), Released(f, cur))
  {
    if Redundant(cur) {
      FillLoose(f);
      TrimCanonical(Fill(f, Null));
      TrimMeaning(Fill(f, Null));
      EmptiedMeaning(f, cur);
      SameTrans(Fill(f, cur), Fill(f, Null), Trim(Fill(f, Null)));
    } else {
      FillCanonical(f, cur);
    }
  }

  lemma EmptiedMeaning<A>(f: Frame<A>, cur: Tree<A>)
    requires Redundant(cur)
    ensures SameMeaning(Fill(f, cur), Fill(f, Null))
  {
    forall k: Key ensures Get(Fill(f, cur), k) == Get(Fill(f, Null), k) {
      if k != [] && k[0] == f.min + |f.left| {
        NullGet(cur, k[1..]);
        NullGet(Fill(f, Null).kids[|f.left|], k[1..]);
      }
    }
  }

  // ---------------------------------------------------------------- what the loop keeps

  // The stack entries of the frames, the innermost pointing at `child`; on the way down,
  // one more entry for `child` itself with the rest of the key.
  ghost predicate Stacked(stack: seq<Iter>, fs: Frames, child: GenericMtrie, down: bool, key: Key) {
    && |stack| == |fs| + (if down then 1 else 0)
    && |fs| <= |key|
    && (forall i :: 0 <= i < |fs| ==> Entry(stack[i], fs[i], Below(fs, i, child)))
    && (down ==> Fresh(stack[|fs|], child, key[|fs|..]))
  }

  ghost function Below(fs: Frames, i: int, child: GenericMtrie): GenericMtrie
    requires 0 <= i < |fs|
  {
    if i + 1 < |fs| then fs[i + 1].node else child
  }

  ghost predicate Entry(it: Iter, f: Frame<GenericMtrie>, child: GenericMtrie) {
    it.processed && it.node == f.node && it.currentChild == f.min + |f.left| && it.nextNode == child
  }

  ghost predicate Fresh(it: Iter, n: GenericMtrie, rest: Key) {
    !it.processed && it.node == n && it.prefix == rest && it.size == |rest|
  }

  lemma StackedTop(stack: seq<Iter>, fs: Frames, child: GenericMtrie, down: bool, key: Key)
    requires Stacked(stack, fs, child, down, key) && stack != []
    ensures var it := stack[|stack| - 1];
            && (it.processed <==> !down)
            && (down ==> Fresh(it, child, key[|fs|..]) && Stacked(stack[..|stack| - 1], fs, child, false, key))
            && (down && it.size > 0 ==> |fs| < |key| && it.prefix[0] == key[|fs|])
            && (!down ==> fs != [] && Entry(it, fs[|fs| - 1], child)
                          && Stacked(stack[..|stack| - 1], fs[..|fs| - 1], fs[|fs| - 1].node, false, key))
  {
    if !down {
      assert Entry(stack[|fs| - 1], fs[|fs| - 1], Below(fs, |fs| - 1, child));
      var up := fs[..|fs| - 1];
      forall i | 0 <= i < |up| ensures Entry(stack[i], up[i], Below(up, i, fs[|fs| - 1].node)) {
        assert Below(up, i, fs[|fs| - 1].node) == Below(fs, i, child);
      }
    }
  }

  lemma StackedDown(stack: seq<Iter>, fs: Frames, f: Frame<GenericMtrie>, key: Key, n: GenericMtrie)
    requires Stacked(stack, fs, f.node, true, key) && |fs| < |key| && f.min + |f.left| == key[|fs|]
    ensures var it := stack[|stack| - 1];
            it.prefix != [] && it.size > 0 &&
            Stacked(stack[..|stack| - 1] + Pushed(it, key[|fs|], n), fs + [f], n, true, key)
  {
    var it := stack[|stack| - 1];
    var top := it.(currentChild := key[|fs|], nextNode := n, processed := true);
    var below := stack[..|stack| - 1] + [top];
    var gs := fs + [f];
    forall i | 0 <= i < |gs| ensures Entry(below[i], gs[i], Below(gs, i, n)) {
      if i < |fs| { assert Below(gs, i, n) == Below(fs, i, f.node); }
    }
    assert key[|fs|..][1..] == key[|gs|..];
    assert stack[..|stack| - 1] + Pushed(it, key[|fs|], n) == below + [Pushed(it, key[|fs|], n)[1]];
  }

  // `u` is `t` without `p` at `key`.
  ghost predicate Removed<A>(u: Tree<A>, t: Tree<A>, key: Key, p: Pipe) {
    forall k: Key :: Get(u, k) == if k == key then Get(t, k) - {p} else Get(t, k)
  }

  ghost predicate Removing<A>(t: Tree<A>, fs: seq<Frame<A>>, cur: Tree<A>,
                              key: Key, p: Pipe, down: bool, ret: RmResult) {
    && t.Tree? && cur.Tree? && CanonicalFrames(fs) && Canonical(cur) && Root(fs, cur) == t.node
    && |fs| <= |key| && Path(fs) == key[..|fs|]
    && if down then Plug(fs, cur) == t
       else Removed(Plug(fs, cur), t, key, p) && ret == Verdict(Get(t, key), p)
  }

  // All of what the loop of `rm` of a key keeps.
  ghost predicate RmState(stack: seq<Iter>, t: Shape, fs: Frames, cur: Shape,
                          key: Key, p: Pipe, down: bool, ret: RmResult)
    reads NodesAt(fs, cur)
  {
    && cur.Tree? && Spells(fs, cur) && NodesAt(fs, cur) <= Nodes(t)
    && Removing(t, fs, cur, key, p, down, ret) && Stacked(stack, fs, cur.node, down, key)
  }

  ghost function RmMeasure(key: Key, fs: Frames, down: bool): int {
    if down then 2 * (|key| - |fs|) + |fs| + 1 else |fs|
  }

  lemma RemovingErase<A>(t: Tree<A>, fs: seq<Frame<A>>, cur: Tree<A>,
                         key: Key, p: Pipe, r: RmResult, u: Tree<A>, ret: RmResult)
    requires Removing(t, fs, cur, key, p, true, r) && |fs| == |key|
    requires u == cur.(pipes := Erase(cur.pipes, p)) && ret == Verdict(Values(cur), p)
    ensures Removing(t, fs, u, key, p, false, ret)
  {
    assert key[..|fs|] == key && key + [] == key;
    PlugGetIn(fs, cur, []);
    PlugGetIn(fs, u, []);
    forall k: Key | k != key ensures Get(Plug(fs, u), k) == Get(t, k) { OtherKey(fs, cur, u, k); }
  }

  lemma RemovingMiss<A>(t: Tree<A>, fs: seq<Frame<A>>, cur: Tree<A>, key: Key, p: Pipe, r: RmResult)
    requires Removing(t, fs, cur, key, p, true, r) && |fs| < |key|
    requires InRange(cur, key[|fs|]) ==> cur.kids[key[|fs|] - cur.min].Null?
    ensures Removing(t, fs, cur, key, p, false, NotFound)
  {
    hide Canonical, Plug;
    var rest := key[|fs|..];
    assert key == Path(fs) + rest;
    PlugGetIn(fs, cur, rest);
    if InRange(cur, key[|fs|]) { NullGet(cur.kids[key[|fs|] - cur.min], rest[1..]); }
    assert Get(t, key) == {};
  }

  lemma RemovingDown<A>(t: Tree<A>, fs: seq<Frame<A>>, cur: Tree<A>,
                        key: Key, p: Pipe, r: RmResult, f: Frame<A>, child: Tree<A>)
    requires Removing(t, fs, cur, key, p, true, r) && |fs| < |key| && InRange(cur, key[|fs|])
    requires f == Open(cur, key[|fs|] - cur.min) && child == cur.kids[key[|fs|] - cur.min] && child.Tree?
    ensures Removing(t, fs + [f], child, key, p, true, r)
  {
    OpenCanonical(cur, key[|fs|] - cur.min);
    OpenFill(cur, key[|fs|] - cur.min);
    AllCanonicalPush(fs, f);
    PlugPush(fs, f, child);
    PathPush(fs, f);
    TakeOne(key, |fs|);
  }

  lemma VisitMiss(stack: seq<Iter>, t: Shape, fs: Frames, cur: Shape,
                  key: Key, p: Pipe, ret: RmResult)
    requires RmState(stack, t, fs, cur, key, p, true, ret) && |fs| < |key|
    requires InRange(cur, key[|fs|]) ==> cur.kids[key[|fs|] - cur.min].Null?
    ensures RmState(stack[..|stack| - 1], t, fs, cur, key, p, false, NotFound)
  {
    StackedTop(stack, fs, cur.node, true, key);
    RemovingMiss(t, fs, cur, key, p, ret);
  }

  lemma VisitDown(stack: seq<Iter>, t: Shape, fs: Frames, cur: Shape,
                  key: Key, p: Pipe, ret: RmResult)
    requires RmState(stack, t, fs, cur, key, p, true, ret) && |fs| < |key|
    requires InRange(cur, key[|fs|]) && cur.kids[key[|fs|] - cur.min].Tree?
    ensures var it := stack[|stack| - 1];
            var i := key[|fs|] - cur.min;
            var n := cur.kids[i].node;
            it.prefix != [] && it.size > 0 &&
            RmState(stack[..|stack| - 1] + Pushed(it, key[|fs|], n), t,
                    fs + [Open(cur, i)], cur.kids[i], key, p, true, ret)
  {
    var i := key[|fs|] - cur.min;
    StackedDown(stack, fs, Open(cur, i), key, cur.kids[i].node);
    RemovingDown(t, fs, cur, key, p, ret, Open(cur, i), cur.kids[i]);
    SpellsDown(fs, cur, Open(cur, i), i);
  }

  lemma RemovingFrame<A>(t: Tree<A>, up: seq<Frame<A>>, f: Frame<A>, cur: Tree<A>, key: Key, p: Pipe, ret: RmResult)
    requires Removing(t, up + [f], cur, key, p, false, ret)
    ensures CanonicalFrame(f) && Canonical(cur) && cur.Tree?
  {
    assert (up + [f])[|up|] == f;
  }

  lemma RemovingUp<A>(t: Tree<A>, up: seq<Frame<A>>, f: Frame<A>, cur: Tree<A>, key: Key, p: Pipe, ret: RmResult)
    requires Removing(t, up + [f], cur, key, p, false, ret)
    ensures Removing(t, up, Released(f, cur), key, p, false, ret)
  {
    hide Get, Verdict;
    var u := Released(f, cur);
    ReleasedFine(f, cur);
    PlugPush(up, f, cur);
    PathPush(up, f);
    PlugSame(up, Fill(f, cur), u);
  }

  lemma RemovingEnd<A>(t: Tree<A>, fs: seq<Frame<A>>, cur: Tree<A>, key: Key, p: Pipe, ret: RmResult)
    requires Removing(t, fs, cur, key, p, false, ret) && fs == []
    ensures ContentsOf(cur) == RmKeySpec(ContentsOf(t), key, p)
    ensures ret == Verdict(At(ContentsOf(t), key), p)
  {
    assert Removed(cur, t, key, p);
    var m, n := ContentsOf(cur), RmKeySpec(ContentsOf(t), key, p);
    assert At(ContentsOf(t), key) == Get(t, key);
    forall k: Key ensures k in m <==> k in n {}
    forall k: Key | k in m ensures m[k] == n[k] {}
  }
}
