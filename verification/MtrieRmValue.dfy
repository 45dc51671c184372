/**
  generic_mtrie_t::rm of a value (ExternalLib/libzmq/src/generic_mtrie_impl.hpp:153-398): an
  explicit stack simulates the recursive traversal `MtrieShape.Rm`.  A node with a table is
  put back on the stack before and after each of its children.
 */
module MtrieRmValue {
  import opened Wrappers
  import opened MtrieShape
  import opened MtrieZipper
  import opened MtrieNode
  import opened MtrieHeap

  // What `rm` of a value does to the plain map.
  ghost function RmValueSpec(m: Contents, p: Pipe): Contents {
    imap k | k in m && m[k] != {p} :: m[k] - {p}
  }

  method RmValue(root: GenericMtrie, pipe: Pipe, callOnUniq: bool, ghost t: Shape)
    returns (calls: seq<Key>, ghost t': Shape)
    requires IsTrie(root, t)
    modifies Nodes(t)
    ensures IsTrie(root, t') && Nodes(t') <= Nodes(t)
    ensures t' == Rm(t, pipe) && calls == Calls(t, pipe, callOnUniq, [])
  {
    calls := [];
    var buff: seq<Byte> := [];
    var stack := [Iter(root, null, [], 0, 0, 0, 0, false)];
    ghost var fs: Frames, cur, visiting := [], t, true;
    AheadStart(t, pipe, callOnUniq);
    while stack != []
      invariant State(stack, buff, calls, t, fs, cur, visiting, pipe, callOnUniq)
      decreases Work(fs, cur, visiting, stack)
    {
      if !stack[|stack| - 1].processed {
        stack, buff, calls, fs, cur, visiting := Enter(stack, buff, calls, pipe, callOnUniq, t, fs, cur);
      } else {
        stack, fs, cur, visiting := Leave(stack, buff, calls, pipe, callOnUniq, t, fs, cur);
      }
    }
    RmCanonical(t, pipe);
    t' := cur;
  }

  // The loop body at an entry not yet processed: erase the pipe, then open the next slot.
  method Enter(stack: seq<Iter>, buff: seq<Byte>, calls: seq<Key>, pipe: Pipe, callOnUniq: bool,
               ghost t: Shape, ghost fs: Frames, ghost cur: Shape)
    returns (stack': seq<Iter>, buff': seq<Byte>, calls': seq<Key>,
             ghost fs': Frames, ghost cur': Shape, ghost visiting: bool)
    requires State(stack, buff, calls, t, fs, cur, true, pipe, callOnUniq)
    modifies Nodes(t)
    ensures State(stack', buff', calls', t, fs', cur', visiting, pipe, callOnUniq)
    ensures Work(fs', cur', visiting, stack') < Work(fs, cur, true, stack)
  {
    var it := stack[|stack| - 1];
    StackedTop(stack, fs, cur);
    KeyedTake(buff, fs);
    var called, cur1 := EraseAt(it.node, pipe, callOnUniq, fs, cur);
    calls' := calls + if called then [buff[..it.size]] else [];
    buff' := Adjusted(buff, it.size, fs);
    if it.node.count == 0 {
      EnterLeaf(stack, buff', calls, t, fs, cur, pipe, callOnUniq);
      stack', fs', cur', visiting := stack[..|stack| - 1], fs, cur1, false;
    } else {
      ghost var f;
      buff', stack', f, cur' := Push(stack, buff', calls, pipe, callOnUniq, t, fs, cur);
      fs', visiting := fs + [f], cur'.Tree?;
    }
  }

  // realloc keeps what the buffer holds and makes room for one more byte.
  function Adjusted(buff: seq<Byte>, size: nat, ghost fs: Frames): (r: seq<Byte>)
    requires AllInByte(fs) && |fs| == size <= |buff| && Keyed(buff, fs)
    ensures size < |r| && Keyed(r, fs)
  {
    if size >= |buff| then
      var more := seq(size + 256 - |buff|, _ => 0);
      StillKeyed(buff, more, fs, 0);
      buff + more
    else buff
  }

  // Write the character of the next child and put the node back, with the child on top.
  method Push(stack: seq<Iter>, buff: seq<Byte>, ghost calls: seq<Key>, ghost pipe: Pipe, ghost callOnUniq: bool,
              ghost t: Shape, ghost fs: Frames, ghost cur: Shape)
    returns (buff': seq<Byte>, stack': seq<Iter>, ghost f: Frame<GenericMtrie>, ghost kid: Shape)
    requires Visited(stack, buff, calls, t, fs, cur, pipe, callOnUniq) && cur.kids != []
    ensures State(stack', buff', calls + Own(cur.pipes, pipe, callOnUniq, Path(fs)),
                  t, fs + [f], kid, kid.Tree?, pipe, callOnUniq)
    ensures Work(fs + [f], kid, kid.Tree?, stack') < Work(fs, cur, true, stack)
  {
    hide Visited, State, Work;
    PushTop(stack, buff, calls, t, fs, cur, pipe, callOnUniq);
    var it := stack[|stack| - 1];
    f, kid := Open(cur.(pipes := Erase(cur.pipes, pipe)), it.currentChild), cur.kids[it.currentChild];
    buff' := buff[it.size := it.node.min + it.currentChild];
    PushOpen(stack, buff, calls, t, fs, cur, pipe, callOnUniq);
    var child := it.node.SlotAt(it.currentChild);
    stack' := stack[..|stack| - 1] + [Marked(it, it.node.min, it.node.count)]
              + if child == null then [] else [Iter(child, null, [], it.size + 1, 0, 0, 0, false)];
  }

  // The top entry is that of the current node, whose next slot it is at.
  lemma PushTop(stack: seq<Iter>, buff: seq<Byte>, calls: seq<Key>,
                t: Shape, fs: Frames, cur: Shape, p: Pipe, uniq: bool)
    requires Visited(stack, buff, calls, t, fs, cur, p, uniq) && cur.kids != []
    ensures stack != [] && cur.Tree?
    ensures var it := stack[|stack| - 1];
            && it.size == |fs| < |buff| && 0 <= it.currentChild < |cur.kids| && it.node == cur.node && it.node.Ok()
            && it.node.min == cur.min && it.node.count == |cur.kids| && 0 <= cur.min + it.currentChild < 256
            && it.node.SlotAt(it.currentChild) == Addr(cur.kids[it.currentChild])
  {
    hide Ahead;
    StackedTop(stack, fs, cur);
    SpelledSlot(fs, cur, p, stack[|stack| - 1].currentChild);
  }

  // With its character in the buffer, the slot may be opened.
  lemma PushOpen(stack: seq<Iter>, buff: seq<Byte>, calls: seq<Key>,
                 t: Shape, fs: Frames, cur: Shape, p: Pipe, uniq: bool)
    requires Visited(stack, buff, calls, t, fs, cur, p, uniq) && cur.kids != []
    requires stack != [] && cur.Tree? && 0 <= stack[|stack| - 1].currentChild < |cur.kids| && |fs| < |buff|
    requires 0 <= cur.min + stack[|stack| - 1].currentChild < 256
    ensures var i := stack[|stack| - 1].currentChild;
            var f, kid := Open(cur.(pipes := Erase(cur.pipes, p)), i), cur.kids[i];
            var buff', own := buff[|fs| := cur.min + i], Own(cur.pipes, p, uniq, Path(fs));
            && State(Opened(stack, cur), buff', calls + own, t, fs + [f], kid, kid.Tree?, p, uniq)
            && Work(fs + [f], kid, kid.Tree?, Opened(stack, cur)) < Work(fs, cur, true, stack)
  {
    hide Visited, State, Work;
    var i := stack[|stack| - 1].currentChild;
    var cur1 := cur.(pipes := Erase(cur.pipes, p));
    VisitedWrite(stack, buff, calls, t, fs, cur, p, uniq, cur.min + i);
    EnterOpen(stack, buff[|fs| := cur.min + i], calls, t, fs, cur, p, uniq, i, Open(cur1, i), cur.kids[i]);
    OpenWork(stack, fs, cur, cur1);
  }

  // The byte behind the key may be written.
  lemma VisitedWrite(stack: seq<Iter>, buff: seq<Byte>, calls: seq<Key>,
                     t: Shape, fs: Frames, cur: Shape, p: Pipe, uniq: bool, c: Byte)
    requires Visited(stack, buff, calls, t, fs, cur, p, uniq) && |fs| < |buff|
    ensures Visited(stack, buff[|fs| := c], calls, t, fs, cur, p, uniq) && Stacked(stack, fs, cur, true)
  {
    hide Spells, Stacked, Resume, RmFrom, Rm, CallsFrom, CallsAfter, Calls;
    StillKeyed(buff, [], fs, c);
  }

  // The loop body at a processed entry: settle the child just visited, then go on to the next
  // one or compact the table.
  method Leave(stack: seq<Iter>, ghost buff: seq<Byte>, ghost calls: seq<Key>, ghost pipe: Pipe, ghost callOnUniq: bool,
               ghost t: Shape, ghost fs: Frames, ghost cur: Shape)
    returns (stack': seq<Iter>, ghost fs': Frames, ghost cur': Shape, ghost visiting: bool)
    requires State(stack, buff, calls, t, fs, cur, false, pipe, callOnUniq) && stack != []
    modifies Nodes(t)
    ensures State(stack', buff, calls, t, fs', cur', visiting, pipe, callOnUniq)
    ensures Work(fs', cur', visiting, stack') < Work(fs, cur, false, stack)
  {
    var it := stack[|stack| - 1].(processed := false);
    stack' := stack[..|stack| - 1];
    ghost var f := fs[|fs| - 1];
    fs' := fs[..|fs| - 1];
    assert fs == fs' + [f];
    LeaveTop(stack, fs', f, cur, cur);
    FrameSlot(fs', f, cur);
    cur', visiting := Trim(Fill(f, Prune(cur))), false;
    if it.node.count == 1 {
      SettleSingle(it.node, fs', f, cur);
      LeaveDone(stack, buff, calls, t, fs', f, cur, pipe, callOnUniq);
    } else {
      var min, count := it.node.min, it.node.count;
      var kept := Settle(it.node, it.currentChild, fs', f, cur);
      it := Advanced(it, min, kept);
      SettledEnds(stack[|stack| - 1], f, cur);
      if it.currentChild < count {
        LeaveNext(stack, buff, calls, t, fs', f, cur, pipe, callOnUniq);
        stack' := stack' + [it];
        cur', visiting := Fill(f, Prune(cur)), true;
      } else {
        CompactAt(it.node, it.newMin, it.newMax, fs', Fill(f, Prune(cur)));
        LeaveDone(stack, buff, calls, t, fs', f, cur, pipe, callOnUniq);
      }
    }
  }

  // Step to the next child, taking note of the one just visited if it stays.
  function Advanced(it: Iter, min: int, kept: bool): Iter {
    var c := it.currentChild + min;
    it.(currentChild := it.currentChild + 1,
        newMin := if kept && c < it.newMin then c else it.newMin,
        newMax := if kept && c > it.newMax then c else it.newMax)
  }

  // Delete the child in slot `i` of a table if it has become redundant.
  method Settle(n: GenericMtrie, i: nat, ghost fs: Frames, ghost f: Frame<GenericMtrie>, ghost r: Shape)
    returns (kept: bool)
    requires Spells(fs + [f], r) && f.node == n && i == |f.left| && !Solo(f)
    modifies n
    ensures kept == Prune(r).Tree?
    ensures Spells(fs, Fill(f, Prune(r))) && NodesAt(fs, Fill(f, Prune(r))) <= NodesAt(fs + [f], r)
  {
    FrameSlot(fs, f, r);
    SpellsStep(fs, f, r);
    SepStep(fs, f, r);
    kept := false;
    var child := n.SlotAt(i);
    if child != null {
      SpelledRedundant(r);
      if child.IsRedundant() {
        SpellsEmptied(fs, f, r);
        AllAllocated(AroundNodes(fs, f, Null));
        n.EmptySlot(i);
        assert Around(fs, f, Null);
        SpellsAround(fs, f, Null);
        SpellsStep(fs, f, Null);
        SepStep(fs, f, Null);
      } else {
        kept := true;
      }
    }
  }

  // Delete an only child if it has become redundant.
  method SettleSingle(n: GenericMtrie, ghost fs: Frames, ghost f: Frame<GenericMtrie>, ghost r: Shape)
    requires Spells(fs + [f], r) && f.node == n && Solo(f) && r.Tree?
    modifies n
    ensures var u := Trim(Fill(f, Prune(r))); Spells(fs, u) && NodesAt(fs, u) <= NodesAt(fs + [f], r)
  {
    FrameSlot(fs, f, r);
    SpelledRedundant(r);
    if n.next.node.IsRedundant() {
      SpellsEmptied(fs, f, r);
      AllAllocated(AroundNodes(fs, f, Null));
      n.EmptySingle();
      assert Around(fs, f, Null);
      SpellsTrim(fs, f);
    } else {
      SpellsStep(fs, f, r);
      SepStep(fs, f, r);
      TrimSolo(f, r);
    }
  }

  // Compact the table of a node all of whose children have been visited.
  method CompactAt(n: GenericMtrie, newMin: int, newMax: int, ghost fs: Frames, ghost t: Shape)
    requires t.Tree? && t.node == n && Spells(fs, t) && |t.kids| > 1
    requires newMin == NewMin(t.min, |t.kids|, t.kids, Null) && newMax == NewMax(t.min, t.kids, Null)
    modifies n
    ensures Spells(fs, Trim(t)) && NodesAt(fs, Trim(t)) <= NodesAt(fs, t)
  {
    AllAllocated(NodesAt(fs, t));
    assert SpelledAll(t.kids) && SpelledFrames(fs, n);
    SameCut(t.kids, Null, Addrs(t.kids), null);
    n.Compact(newMin, newMax);
    SpellsCut(fs, t);
  }

  // The entry pushed back before a child: marked, and on the first visit of a table with
  // the running ends set up.
  function Marked(it: Iter, min: int, count: nat): Iter {
    if count > 1 && it.currentChild == 0
    then it.(processed := true, newMin := min + count - 1, newMax := min)
    else it.(processed := true)
  }

  // `rm` of a value in one node.
  method EraseAt(it: GenericMtrie, pipe: Pipe, callOnUniq: bool, ghost fs: Frames, ghost cur: Shape)
    returns (called: bool, ghost cur1: Shape)
    requires cur.Tree? && cur.node == it && Spells(fs, cur)
    modifies it
    ensures cur1 == cur.(pipes := Erase(cur.pipes, pipe)) && Spells(fs, cur1)
    ensures called == Reports(cur.pipes, pipe, callOnUniq)
  {
    AllAllocated(NodesAt(fs, cur));
    assert SpelledAll(cur.kids) && SpelledFrames(fs, it);
    called := it.EraseValue(pipe, callOnUniq);
    cur1 := cur.(pipes := Erase(cur.pipes, pipe));
  }

  // ---------------------------------------------------------------- the recursion, part way through

  // What a visit of `t` comes to, when the children before `i` have been dealt with.
  ghost function RmFrom<A>(t: Tree<A>, i: nat, p: Pipe): Tree<A>
    requires t.Tree? && i <= |t.kids|
  {
    Trim(t.(pipes := Erase(t.pipes, p), kids := t.kids[..i] + RmAll(t.kids[i..], p)))
  }

  ghost function CallsFrom<A>(t: Tree<A>, i: nat, p: Pipe, uniq: bool, at: Key): seq<Key>
    requires t.Tree? && i <= |t.kids|
  {
    (if Reports(t.pipes, p, uniq) then [at] else []) + CallsAll(t.kids[i..], t.min + i, p, uniq, at)
  }

  // The final tree, once the subtree in the hole has come to `r`.
  ghost function Resume<A>(fs: seq<Frame<A>>, r: Tree<A>, p: Pipe): Tree<A>
    decreases |fs|
  {
    if fs == [] then r
    else
      var f := fs[|fs| - 1];
      Resume(fs[..|fs| - 1], Trim(Tree(f.node, f.pipes, f.min, f.left + [Prune(r)] + RmAll(f.right, p))), p)
  }

  // The callbacks still to come after those of the hole.
  ghost function CallsAfter<A>(fs: seq<Frame<A>>, p: Pipe, uniq: bool): seq<Key>
    requires AllInByte(fs)
    decreases |fs|
  {
    if fs == [] then []
    else
      var f, up := fs[|fs| - 1], fs[..|fs| - 1];
      CallsAll(f.right, f.min + |f.left| + 1, p, uniq, Path(up)) + CallsAfter(up, p, uniq)
  }

  // Loop turns a subtree, the rest of a table, and the open frames still need.
  ghost function Turns<A>(t: Tree<A>): nat
    decreases t, 1
  {
    if t.Null? then 0 else 1 + TurnsAll(t.kids)
  }

  ghost function TurnsAll<A>(ts: seq<Tree<A>>): nat
    decreases ts, 0
  {
    if ts == [] then 0 else 2 + Turns(ts[0]) + TurnsAll(ts[1..])
  }

  ghost function TurnsAfter<A>(fs: seq<Frame<A>>): nat
    decreases |fs|
  {
    if fs == [] then 0 else 2 + TurnsAll(fs[|fs| - 1].right) + TurnsAfter(fs[..|fs| - 1])
  }

  // ---------------------------------------------------------------- what the loop keeps

  // The index of the next child to visit is in the top entry.
  ghost function Next(stack: seq<Iter>): int {
    if stack == [] then 0 else stack[|stack| - 1].currentChild
  }

  ghost function Work(fs: Frames, cur: Shape, visiting: bool, stack: seq<Iter>): nat {
    if visiting && cur.Tree? && 0 <= Next(stack) <= |cur.kids|
    then 1 + TurnsAll(cur.kids[Next(stack)..]) + TurnsAfter(fs)
    else TurnsAfter(fs)
  }

  ghost predicate EndsOf(it: Iter, min: int, n: nat, done: seq<Shape>) {
    n > 1 ==> it.newMin == NewMin(min, n, done, Null) && it.newMax == NewMax(min, done, Null)
  }

  // The stack entry of an open frame at depth `d`.
  ghost predicate Entry(it: Iter, f: Frame<GenericMtrie>, d: nat) {
    && it.processed && it.node == f.node && it.size == d && it.currentChild == |f.left|
    && EndsOf(it, f.min, |f.left| + 1 + |f.right|, f.left)
  }

  // The stack entry of a node about to be visited at child `it.currentChild`.
  ghost predicate Top(it: Iter, cur: Shape, d: nat) {
    && !it.processed && cur.Tree? && it.node == cur.node && it.size == d
    && 0 <= it.currentChild <= |cur.kids|
    && (it.currentChild > 0 ==>
          && it.currentChild < |cur.kids|
          && EndsOf(it, cur.min, |cur.kids|, cur.kids[..it.currentChild]))
  }

  ghost predicate Stacked(stack: seq<Iter>, fs: Frames, cur: Shape, visiting: bool) {
    && |stack| == |fs| + (if visiting then 1 else 0)
    && (forall i :: 0 <= i < |fs| ==> Entry(stack[i], fs[i], i))
    && (visiting ==> Top(stack[|fs|], cur, |fs|))
  }

  ghost predicate AllCanonical<A>(ts: seq<Tree<A>>) {
    forall i :: 0 <= i < |ts| ==> Canonical(ts[i])
  }

  // An open frame has lost the pipe already; the slots after its hole are untouched.
  ghost predicate Half<A>(f: Frame<A>, p: Pipe) {
    InByte(f) && Erase(f.pipes, p) == f.pipes && AllCanonical(f.right)
  }

  ghost predicate AllHalf<A>(fs: seq<Frame<A>>, p: Pipe) {
    && AllInByte(fs)
    && forall i :: 0 <= i < |fs| ==> Half(fs[i], p)
  }

  // A node whose children from `i` on are untouched.
  ghost predicate Untouched<A>(t: Tree<A>, i: int) {
    && t.Tree? && 0 <= i <= |t.kids| && 0 <= t.min && t.min + |t.kids| <= 256
    && AllCanonical(t.kids[i..]) && (|t.kids| == 1 ==> t.kids[0].Tree?)
  }

  // The recursion's result and callbacks are still ahead, whatever the point reached.
  ghost predicate Ahead<A>(t: Tree<A>, fs: seq<Frame<A>>, cur: Tree<A>, i: int, visiting: bool,
                           calls: seq<Key>, p: Pipe, uniq: bool) {
    && AllHalf(fs, p)
    && if visiting then
         && Untouched(cur, i)
         && Resume(fs, RmFrom(cur, i, p), p) == Rm(t, p)
         && calls + (CallsFrom(cur, i, p, uniq, Path(fs)) + CallsAfter(fs, p, uniq)) == Calls(t, p, uniq, [])
       else
         && (fs != [] && Solo(fs[|fs| - 1]) ==> cur.Tree?)
         && Resume(fs, cur, p) == Rm(t, p)
         && calls + CallsAfter(fs, p, uniq) == Calls(t, p, uniq, [])
  }

  // The frame of a node with one inline child.
  ghost predicate Solo<A>(f: Frame<A>) {
    f.left == [] && f.right == []
  }

  ghost predicate State(stack: seq<Iter>, buff: seq<Byte>, calls: seq<Key>, t: Shape, fs: Frames, cur: Shape,
                        visiting: bool, p: Pipe, uniq: bool)
    reads NodesAt(fs, cur)
  {
    && Spells(fs, cur) && NodesAt(fs, cur) <= Nodes(t)
    && Stacked(stack, fs, cur, visiting)
    && Ahead(t, fs, cur, if visiting then Next(stack) else 0, visiting, calls, p, uniq)
    && Keyed(buff, fs)
  }

  // The buffer starts with the key of the open frames.
  ghost predicate Keyed<A>(buff: seq<Byte>, fs: seq<Frame<A>>)
    requires AllInByte(fs)
  {
    Path(fs) <= buff
  }

  lemma StackedTop(stack: seq<Iter>, fs: Frames, cur: Shape)
    requires Stacked(stack, fs, cur, true)
    ensures Top(stack[|stack| - 1], cur, |fs|) && Stacked(stack[..|stack| - 1], fs, cur, false)
  {
  }

  // Opening the slot the top entry is at.
  lemma OpenStacked(stack: seq<Iter>, fs: Frames, cur: Shape, cur1: Shape)
    requires Stacked(stack, fs, cur, true) && cur1.Tree? && cur.kids != []
    requires cur1.node == cur.node && cur1.min == cur.min && cur1.kids == cur.kids
    ensures stack[|stack| - 1].currentChild < |cur.kids|
    ensures var i := stack[|stack| - 1].currentChild;
            Stacked(Opened(stack, cur), fs + [Open(cur1, i)], cur.kids[i], cur.kids[i].Tree?)
  {
    var it := stack[|stack| - 1];
    var f := Open(cur1, it.currentChild);
    assert Entry(Marked(it, cur.min, |cur.kids|), f, |fs|);
  }

  // The stack after the top entry's next slot has been opened.
  ghost function Opened(stack: seq<Iter>, cur: Shape): seq<Iter>
    requires stack != [] && cur.Tree? && 0 <= stack[|stack| - 1].currentChild < |cur.kids|
  {
    var it := stack[|stack| - 1];
    var child := Addr(cur.kids[it.currentChild]);
    stack[..|stack| - 1] + [Marked(it, cur.min, |cur.kids|)]
    + if child == null then [] else [Iter(child, null, [], it.size + 1, 0, 0, 0, false)]
  }

  // The state right after the pipe has been erased from the top node.
  ghost predicate Visited(stack: seq<Iter>, buff: seq<Byte>, calls: seq<Key>, t: Shape, fs: Frames, cur: Shape,
                          p: Pipe, uniq: bool)
    reads NodesAt(fs, cur)
  {
    && cur.Tree? && Spells(fs, cur.(pipes := Erase(cur.pipes, p))) && NodesAt(fs, cur) <= Nodes(t)
    && Stacked(stack, fs, cur, true)
    && Ahead(t, fs, cur, Next(stack), true, calls, p, uniq)
    && |fs| < |buff| && Keyed(buff, fs)
  }

  lemma EnterLeaf(stack: seq<Iter>, buff: seq<Byte>, calls: seq<Key>,
                  t: Shape, fs: Frames, cur: Shape, p: Pipe, uniq: bool)
    requires Visited(stack, buff, calls, t, fs, cur, p, uniq) && cur.kids == []
    ensures var cur1, up := cur.(pipes := Erase(cur.pipes, p)), stack[..|stack| - 1];
            && State(up, buff, calls + Own(cur.pipes, p, uniq, Path(fs)), t, fs, cur1, false, p, uniq)
            && Work(fs, cur1, false, up) < Work(fs, cur, true, stack)
  {
    StackedTop(stack, fs, cur);
    AheadLeaf(t, fs, cur, calls, p, uniq);
  }

  lemma EnterOpen(stack: seq<Iter>, buff: seq<Byte>, calls: seq<Key>,
                  t: Shape, fs: Frames, cur: Shape, p: Pipe, uniq: bool,
                  i: nat, f: Frame<GenericMtrie>, kid: Shape)
    requires Visited(stack, buff, calls, t, fs, cur, p, uniq)
    requires i == stack[|stack| - 1].currentChild < |cur.kids| && buff[|fs|] == cur.min + i
    requires f == Open(cur.(pipes := Erase(cur.pipes, p)), i) && kid == cur.kids[i]
    ensures State(Opened(stack, cur), buff, calls + Own(cur.pipes, p, uniq, Path(fs)),
                  t, fs + [f], kid, kid.Tree?, p, uniq)
  {
    OpenStacked(stack, fs, cur, cur.(pipes := Erase(cur.pipes, p)));
    OpenAhead(stack, t, fs, cur, i, calls, p, uniq);
    OpenSpells(buff, fs, cur.(pipes := Erase(cur.pipes, p)), i);
  }

  lemma OpenAhead(stack: seq<Iter>, t: Shape, fs: Frames, cur: Shape, i: nat, calls: seq<Key>, p: Pipe, uniq: bool)
    requires Stacked(stack, fs, cur, true) && Ahead(t, fs, cur, Next(stack), true, calls, p, uniq)
    requires cur.Tree? && i == stack[|stack| - 1].currentChild < |cur.kids|
    ensures var f, kid := Open(cur.(pipes := Erase(cur.pipes, p)), i), cur.kids[i];
            Ahead(t, fs + [f], kid, if kid.Tree? then Next(Opened(stack, cur)) else 0, kid.Tree?,
                  calls + Own(cur.pipes, p, uniq, Path(fs)), p, uniq)
  {
    AheadDown(t, fs, cur, i, calls, p, uniq);
    assert cur.kids[i].Tree? ==> Next(Opened(stack, cur)) == 0;
  }

  lemma OpenSpells(buff: seq<Byte>, fs: Frames, cur: Shape, i: nat)
    requires cur.Tree? && Spells(fs, cur) && i < |cur.kids| && AllInByte(fs) && InByte(Open(cur, i))
    requires |fs| < |buff| && buff[|fs|] == cur.min + i && Keyed(buff, fs)
    ensures Spells(fs + [Open(cur, i)], cur.kids[i]) && NodesAt(fs + [Open(cur, i)], cur.kids[i]) <= NodesAt(fs, cur)
    ensures AllInByte(fs + [Open(cur, i)]) && Keyed(buff, fs + [Open(cur, i)])
  {
    SpellsDown(fs, cur, Open(cur, i), i);
    SpelledPath(fs, Open(cur, i), buff);
  }

  lemma OpenWork(stack: seq<Iter>, fs: Frames, cur: Shape, cur1: Shape)
    requires Stacked(stack, fs, cur, true) && cur1.Tree? && cur1.kids == cur.kids
    requires stack[|stack| - 1].currentChild < |cur.kids|
    ensures var i := stack[|stack| - 1].currentChild;
            Work(fs + [Open(cur1, i)], cur.kids[i], cur.kids[i].Tree?, Opened(stack, cur)) < Work(fs, cur, true, stack)
  {
    TurnsOpen(fs, cur, cur1, stack[|stack| - 1].currentChild);
  }

  lemma SpelledSlot(fs: Frames, cur: Shape, p: Pipe, i: int)
    requires cur.Tree? && Spells(fs, cur.(pipes := Erase(cur.pipes, p))) && cur.kids != [] && 0 <= i <= |cur.kids|
    requires i > 0 ==> i < |cur.kids|
    ensures var n := cur.node;
            && n.Ok() && n.min == cur.min && n.count == |cur.kids| && 0 <= cur.min + i < 256
            && n.SlotAt(i) == Addr(cur.kids[i])
  {
  }

  // The buffer holds the key of the opened slot.
  lemma SpelledPath<A>(fs: seq<Frame<A>>, f: Frame<A>, buff: seq<Byte>)
    requires AllInByte(fs) && InByte(f) && |fs| < |buff| && Keyed(buff, fs) && buff[|fs|] == f.min + |f.left|
    ensures AllInByte(fs + [f]) && Keyed(buff, fs + [f])
  {
    PathPush(fs, f);
  }

  lemma KeyedTake<A>(buff: seq<Byte>, fs: seq<Frame<A>>)
    requires AllInByte(fs) && Keyed(buff, fs)
    ensures |fs| <= |buff| && buff[..|fs|] == Path(fs)
  {
  }

  // Growing the buffer, and writing its next byte, keep the key.
  lemma StillKeyed<A>(buff: seq<Byte>, more: seq<Byte>, fs: seq<Frame<A>>, c: Byte)
    requires AllInByte(fs) && Keyed(buff, fs)
    ensures Keyed(buff + more, fs)
    ensures |fs| < |buff| ==> Keyed(buff[|fs| := c], fs)
  {
  }

  lemma TurnsOpen<A>(fs: seq<Frame<A>>, cur: Tree<A>, cur1: Tree<A>, i: nat)
    requires cur.Tree? && cur1.Tree? && cur1.kids == cur.kids && i < |cur.kids|
    ensures TurnsAfter(fs + [Open(cur1, i)]) + Turns(cur.kids[i]) == TurnsAll(cur.kids[i..]) + TurnsAfter(fs)
    ensures cur.kids[i].Tree? ==> Turns(cur.kids[i]) == 1 + TurnsAll(cur.kids[i].kids[0..])
  {
    var fs' := fs + [Open(cur1, i)];
    assert fs'[..|fs|] == fs;
    assert cur.kids[i..][1..] == cur.kids[i + 1..];
    if cur.kids[i].Tree? { assert cur.kids[i].kids[0..] == cur.kids[i].kids; }
  }

  lemma FrameSlot(fs: Frames, f: Frame<GenericMtrie>, r: Shape)
    requires Spells(fs + [f], r)
    ensures var n := f.node;
            && n.Ok() && n.min == f.min && n.pipes == f.pipes && n.count == |f.left| + 1 + |f.right|
            && n.Slots() == Addrs(f.left) + [Addr(r)] + Addrs(f.right) && n.Slots()[|f.left|] == Addr(r)
            && n.Slots()[|f.left| := null] == Addrs(f.left) + [null] + Addrs(f.right)
  {
    SpellsAround(fs, f, r);
  }

  lemma TrimSolo<A>(f: Frame<A>, r: Tree<A>)
    requires Solo(f) && r.Tree?
    ensures Trim(Fill(f, r)) == Fill(f, r)
  {
    var kids := Fill(f, r).kids;
    assert kids == [r];
    FirstIs(kids, Null, 0);
    LastIs(kids, Null, 1);
  }

  lemma LeaveTop(stack: seq<Iter>, fs: Frames, f: Frame<GenericMtrie>, cur: Shape, u: Shape)
    requires Stacked(stack, fs + [f], cur, false)
    ensures Entry(stack[|stack| - 1], f, |fs|) && Stacked(stack[..|stack| - 1], fs, u, false)
  {
    var gs := fs + [f];
    assert Entry(stack[|fs|], gs[|fs|], |fs|);
    forall i | 0 <= i < |fs| ensures Entry(stack[i], fs[i], i) {
      assert gs[i] == fs[i];
    }
  }

  // The running ends after the child in the hole of `f` has been settled.
  lemma SettledEnds(it: Iter, f: Frame<GenericMtrie>, r: Shape)
    requires Entry(it, f, it.size) && !Solo(f)
    ensures var it', u, i := Advanced(it.(processed := false), f.min, Prune(r).Tree?), Fill(f, Prune(r)), |f.left| + 1;
            && u.kids[..i] == f.left + [Prune(r)] && |u.kids| == i + |f.right|
            && EndsOf(it', u.min, |u.kids|, u.kids[..i])
            && (f.right == [] ==> u.kids[..i] == u.kids)
  {
    NewEnds(f.min, |f.left| + 1 + |f.right|, f.left, Prune(r), Null);
  }

  lemma LeaveNext(stack: seq<Iter>, buff: seq<Byte>, calls: seq<Key>, t: Shape, fs: Frames, f: Frame<GenericMtrie>,
                  cur: Shape, p: Pipe, uniq: bool)
    requires Stacked(stack, fs + [f], cur, false) && Ahead(t, fs + [f], cur, 0, false, calls, p, uniq)
    requires Keyed(buff, fs + [f]) && f.right != []
    requires var u := Fill(f, Prune(cur)); Spells(fs, u) && NodesAt(fs, u) <= Nodes(t)
    ensures var it' := Advanced(stack[|stack| - 1].(processed := false), f.min, Prune(cur).Tree?);
            var u, stack' := Fill(f, Prune(cur)), stack[..|stack| - 1] + [it'];
            && State(stack', buff, calls, t, fs, u, true, p, uniq)
            && Work(fs, u, true, stack') < Work(fs + [f], cur, false, stack)
  {
    LeaveTop(stack, fs, f, cur, Fill(f, Prune(cur)));
    SettledEnds(stack[|stack| - 1], f, cur);
    AheadNext(t, fs, f, cur, calls, p, uniq);
    KeyedUp(buff, fs, f, p);
    TurnsLeave(fs, f, Prune(cur));
  }

  lemma LeaveDone(stack: seq<Iter>, buff: seq<Byte>, calls: seq<Key>, t: Shape, fs: Frames, f: Frame<GenericMtrie>,
                  cur: Shape, p: Pipe, uniq: bool)
    requires Stacked(stack, fs + [f], cur, false) && Ahead(t, fs + [f], cur, 0, false, calls, p, uniq)
    requires Keyed(buff, fs + [f]) && f.right == []
    requires var u := Trim(Fill(f, Prune(cur))); Spells(fs, u) && NodesAt(fs, u) <= Nodes(t)
    ensures var u, stack' := Trim(Fill(f, Prune(cur))), stack[..|stack| - 1];
            && State(stack', buff, calls, t, fs, u, false, p, uniq)
            && Work(fs, u, false, stack') < Work(fs + [f], cur, false, stack)
  {
    LeaveTop(stack, fs, f, cur, Trim(Fill(f, Prune(cur))));
    AheadNext(t, fs, f, cur, calls, p, uniq);
    KeyedUp(buff, fs, f, p);
    TurnsLeave(fs, f, Prune(cur));
  }

  lemma KeyedUp<A>(buff: seq<Byte>, fs: seq<Frame<A>>, f: Frame<A>, p: Pipe)
    requires AllHalf(fs + [f], p) && Keyed(buff, fs + [f])
    ensures AllInByte(fs) && Keyed(buff, fs)
  {
    PushHalf(fs, f, p);
    PathPush(fs, f);
    assert Path(fs) <= Path(fs) + [f.min + |f.left|] == Path(fs + [f]);
  }

  lemma TurnsLeave<A>(fs: seq<Frame<A>>, f: Frame<A>, k: Tree<A>)
    ensures TurnsAfter(fs + [f]) == 2 + TurnsAll(f.right) + TurnsAfter(fs)
    ensures Fill(f, k).kids[|f.left| + 1..] == f.right
  {
    assert (fs + [f])[..|fs|] == fs;
  }

  // ---------------------------------------------------------------- steps of the recursion

  ghost function Own(s: Option<set<Pipe>>, p: Pipe, uniq: bool, at: Key): seq<Key> {
    if Reports(s, p, uniq) then [at] else []
  }

  lemma PushHalf<A>(fs: seq<Frame<A>>, f: Frame<A>, p: Pipe)
    ensures AllHalf(fs, p) && Half(f, p) ==> AllHalf(fs + [f], p)
    ensures AllHalf(fs + [f], p) ==> AllHalf(fs, p) && Half(f, p)
  {
    assert AllHalf(fs + [f], p) ==> (fs + [f])[|fs|] == f;
    assert forall i :: 0 <= i < |fs| ==> (fs + [f])[i] == fs[i];
  }

  lemma ResumePush<A>(fs: seq<Frame<A>>, f: Frame<A>, r: Tree<A>, p: Pipe)
    ensures Resume(fs + [f], r, p)
            == Resume(fs, Trim(Tree(f.node, f.pipes, f.min, f.left + [Prune(r)] + RmAll(f.right, p))), p)
  {
    assert (fs + [f])[..|fs|] == fs;
  }

  lemma CallsAfterPush<A>(fs: seq<Frame<A>>, f: Frame<A>, p: Pipe, uniq: bool)
    requires AllInByte(fs) && AllInByte(fs + [f])
    ensures CallsAfter(fs + [f], p, uniq)
            == CallsAll(f.right, f.min + |f.left| + 1, p, uniq, Path(fs)) + CallsAfter(fs, p, uniq)
  {
    assert (fs + [f])[..|fs|] == fs;
  }

  lemma EraseTwice(s: Option<set<Pipe>>, p: Pipe)
    ensures Erase(Erase(s, p), p) == Erase(s, p)
  {
  }

  lemma AheadStart<A>(t: Tree<A>, p: Pipe, uniq: bool)
    requires t.Tree? && Canonical(t)
    ensures Ahead(t, [], t, 0, true, [], p, uniq)
  {
    assert t.kids[..0] + RmAll(t.kids[0..], p) == RmAll(t.kids, p) by { assert t.kids[0..] == t.kids; }
    var c := CallsFrom(t, 0, p, uniq, []);
    assert [] + (c + []) == c;
  }

  // A node without children is done at once.
  lemma AheadLeaf<A>(t: Tree<A>, fs: seq<Frame<A>>, cur: Tree<A>, calls: seq<Key>, p: Pipe, uniq: bool)
    requires Ahead(t, fs, cur, 0, true, calls, p, uniq) && cur.kids == []
    ensures Ahead(t, fs, cur.(pipes := Erase(cur.pipes, p)), 0, false,
                  calls + Own(cur.pipes, p, uniq, Path(fs)), p, uniq)
  {
    var own, rest := Own(cur.pipes, p, uniq, Path(fs)), CallsAfter(fs, p, uniq);
    assert CallsFrom(cur, 0, p, uniq, Path(fs)) == own;
    assert calls + (own + rest) == calls + own + rest;
    assert RmFrom(cur, 0, p) == cur.(pipes := Erase(cur.pipes, p));
  }

  lemma RmFromDown<A>(cur: Tree<A>, i: nat, p: Pipe)
    requires cur.Tree? && i < |cur.kids|
    ensures var f := Open(cur.(pipes := Erase(cur.pipes, p)), i);
            RmFrom(cur, i, p)
            == Trim(Tree(f.node, f.pipes, f.min, f.left + [Prune(Rm(cur.kids[i], p))] + RmAll(f.right, p)))
  {
    assert cur.kids[i..][1..] == cur.kids[i + 1..];
    assert cur.kids[..i] + ([Prune(Rm(cur.kids[i], p))] + RmAll(cur.kids[i + 1..], p))
           == cur.kids[..i] + [Prune(Rm(cur.kids[i], p))] + RmAll(cur.kids[i + 1..], p);
  }

  lemma RmFromStart<A>(t: Tree<A>, p: Pipe)
    requires t.Tree?
    ensures RmFrom(t, 0, p) == Rm(t, p)
  {
    assert t.kids[0..] == t.kids && t.kids[..0] + RmAll(t.kids, p) == RmAll(t.kids, p);
  }

  lemma CallsFromDown<A>(fs: seq<Frame<A>>, cur: Tree<A>, i: nat, p: Pipe, uniq: bool, calls: seq<Key>)
    requires AllHalf(fs, p) && Untouched(cur, i) && i < |cur.kids|
    ensures var f := Open(cur.(pipes := Erase(cur.pipes, p)), i);
            && Half(f, p) && AllHalf(fs + [f], p) && Path(fs + [f]) == Path(fs) + [cur.min + i]
            && calls + (CallsFrom(cur, i, p, uniq, Path(fs)) + CallsAfter(fs, p, uniq))
               == calls + Own(cur.pipes, p, uniq, Path(fs))
                  + (Calls(cur.kids[i], p, uniq, Path(fs) + [cur.min + i]) + CallsAfter(fs + [f], p, uniq))
  {
    hide Calls, CallsAll, CallsAfter, Canonical;
    var f := Open(cur.(pipes := Erase(cur.pipes, p)), i);
    EraseTwice(cur.pipes, p);
    assert f.right == cur.kids[i..][1..];
    assert Half(f, p);
    PushHalf(fs, f, p);
    PathPush(fs, f);
    CallsAfterPush(fs, f, p, uniq);
    CallsAllStep(cur.kids, cur.min, i, p, uniq, Path(fs));
    var own, at := Own(cur.pipes, p, uniq, Path(fs)), Path(fs) + [cur.min + i];
    var c, e := Calls(cur.kids[i], p, uniq, at), CallsAfter(fs, p, uniq);
    var d := CallsAll(f.right, cur.min + i + 1, p, uniq, Path(fs));
    assert CallsFrom(cur, i, p, uniq, Path(fs)) == own + (c + d);
    Regroup(calls, own, c, d, e);
  }

  lemma CallsAllStep<A>(ts: seq<Tree<A>>, min: int, i: nat, p: Pipe, uniq: bool, at: Key)
    requires i < |ts| && 0 <= min + i < 256
    ensures CallsAll(ts[i..], min + i, p, uniq, at) ==
            Calls(ts[i], p, uniq, at + [min + i]) + CallsAll(ts[i + 1..], min + i + 1, p, uniq, at)
  {
    assert ts[i..][1..] == ts[i + 1..];
  }

  lemma Regroup(a: seq<Key>, b: seq<Key>, c: seq<Key>, d: seq<Key>, e: seq<Key>)
    ensures a + (b + (c + d) + e) == a + b + (c + (d + e))
  {
  }

  // Opening the slot of child `i`; an empty slot is done at once.
  lemma AheadDown<A>(t: Tree<A>, fs: seq<Frame<A>>, cur: Tree<A>, i: nat, calls: seq<Key>, p: Pipe, uniq: bool)
    requires Ahead(t, fs, cur, i, true, calls, p, uniq) && i < |cur.kids|
    ensures Ahead(t, fs + [Open(cur.(pipes := Erase(cur.pipes, p)), i)], cur.kids[i], 0, cur.kids[i].Tree?,
                  calls + Own(cur.pipes, p, uniq, Path(fs)), p, uniq)
  {
    var f, child := Open(cur.(pipes := Erase(cur.pipes, p)), i), cur.kids[i];
    RmFromDown(cur, i, p);
    ResumePush(fs, f, Rm(child, p), p);
    CallsFromDown(fs, cur, i, p, uniq, calls);
    assert child == cur.kids[i..][0];
    if child.Tree? {
      RmFromStart(child, p);
      assert child.kids[0..] == child.kids;
    } else {
      assert [] + CallsAfter(fs + [f], p, uniq) == CallsAfter(fs + [f], p, uniq);
    }
  }

  // Back in a frame whose child has come to `r`: on to the next slot, or done.
  lemma AheadNext<A>(t: Tree<A>, fs: seq<Frame<A>>, f: Frame<A>, r: Tree<A>, calls: seq<Key>, p: Pipe, uniq: bool)
    requires Ahead(t, fs + [f], r, 0, false, calls, p, uniq)
    ensures var u := Fill(f, Prune(r));
            if f.right != [] then Ahead(t, fs, u, |f.left| + 1, true, calls, p, uniq)
            else Ahead(t, fs, Trim(u), 0, false, calls, p, uniq)
  {
    PushHalf(fs, f, p);
    ResumePush(fs, f, r, p);
    CallsAfterPush(fs, f, p, uniq);
    if f.right != [] {
      FilledAhead(fs, f, r, p, uniq);
    } else {
      assert f.left + [Prune(r)] + RmAll(f.right, p) == Fill(f, Prune(r)).kids;
      assert [] + CallsAfter(fs, p, uniq) == CallsAfter(fs, p, uniq);
    }
  }

  lemma FilledAhead<A>(fs: seq<Frame<A>>, f: Frame<A>, r: Tree<A>, p: Pipe, uniq: bool)
    requires AllHalf(fs, p) && Half(f, p) && f.right != []
    ensures var u, i := Fill(f, Prune(r)), |f.left| + 1;
            && Untouched(u, i)
            && RmFrom(u, i, p) == Trim(Tree(f.node, f.pipes, f.min, f.left + [Prune(r)] + RmAll(f.right, p)))
            && CallsFrom(u, i, p, uniq, Path(fs)) == CallsAll(f.right, f.min + i, p, uniq, Path(fs))
  {
    hide Trim, RmAll, CallsAll, Path, Canonical, Prune;
    var u, i := Fill(f, Prune(r)), |f.left| + 1;
    assert u.kids[..i] == f.left + [Prune(r)] && u.kids[i..] == f.right;
    assert !Reports(f.pipes, p, uniq);
    var rest := CallsAll(f.right, f.min + i, p, uniq, Path(fs));
    assert [] + rest == rest;
  }

  lemma RmValueMeaning<A>(t: Tree<A>, p: Pipe)
    ensures ContentsOf(Rm(t, p)) == RmValueSpec(ContentsOf(t), p)
  {
    var m, n := ContentsOf(Rm(t, p)), RmValueSpec(ContentsOf(t), p);
    forall k: Key ensures Get(Rm(t, p), k) == Get(t, k) - {p} { RmMeaning(t, p, k); }
    forall k: Key ensures k in m <==> k in n {
      assert Get(t, k) - {p} == {} <==> Get(t, k) == {} || Get(t, k) == {p};
    }
    forall k: Key | k in m ensures m[k] == n[k] {}
  }
}
