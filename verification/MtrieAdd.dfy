/**
  generic_mtrie_t::add (ExternalLib/libzmq/src/generic_mtrie_impl.hpp:67-151): walk down the
  key, growing tables and creating nodes on the way, and put the pipe in the last node.
 */
module MtrieAdd {
  import opened Wrappers
  import opened MtrieShape
  import opened MtrieZipper
  import opened MtrieNode
  import opened MtrieHeap

  // What `add` does to the plain map.
  ghost function AddSpec(m: Contents, k: Key, p: Pipe): Contents {
    m[k := (if k in m then m[k] else {}) + {p}]
  }

  method Add(root: GenericMtrie, prefix: Key, pipe: Pipe, ghost t: Shape) returns (result: bool, ghost t': Shape)
    requires IsTrie(root, t)
    modifies Nodes(t)
    ensures IsTrie(root, t') && fresh(Nodes(t') - Nodes(t))
    ensures ContentsOf(t') == AddSpec(ContentsOf(t), prefix, pipe)
    ensures result <==> prefix !in ContentsOf(t)
  {
    var it := root;
    var i := 0;
    ghost var fs: Frames := [];
    ghost var cur := t;
    while i < |prefix|
      invariant 0 <= i <= |prefix|
      invariant cur.Tree? && cur.node == it && Spells(fs, cur)
      invariant Adding(t, fs, cur, prefix[..i])
      invariant forall n :: n in NodesAt(fs, cur) ==> n in Nodes(t) || fresh(n)
    {
      var n, f, child := Descend(it, prefix[i], fs, cur);
      AddingStep(t, fs, cur, prefix[..i], prefix[i], f, child);
      TakeOne(prefix, i);
      fs, cur := fs + [f], child;
      i := i + 1;
      it := n;
    }
    assert prefix[..i] == prefix;
    ghost var u;
    result, u := Insert(it, pipe, fs, cur);
    SpellsPlug(fs, u);
    AddingEnd(t, fs, cur, prefix, u, pipe);
    t' := Plug(fs, u);
  }

  // One step of `add`: cover `c`, make sure its child exists, and move to it.
  method Descend(it: GenericMtrie, c: Byte, ghost fs: Frames, ghost cur: Shape)
    returns (n: GenericMtrie, ghost f: Frame<GenericMtrie>, ghost child: Shape)
    requires cur.Tree? && cur.node == it && Spells(fs, cur)
    modifies it
    ensures Grown(cur, c, f, child) && child.node == n && Spells(fs + [f], child)
    ensures NodesAt(fs + [f], child) <= NodesAt(fs, cur) + {n}
    ensures n in NodesAt(fs, cur) || fresh(n)
  {
    hide Spells, SepAt, Spelled, SpelledFrames, Extended, ExtendedMin;
    ghost var e := Covering(cur, c);
    ghost var kid := e.kids[c - e.min];
    f := Open(e, c - e.min);
    GrownAround(fs, cur, c, f);
    CoverSlots(fs, cur, c);
    AllAllocated(NodesAt(fs, cur));
    n := it.Cover(c);
    assert Around(fs, f, kid);
    child := if kid.Null? then Tree(n, None, n.min, []) else kid;
    if kid.Null? { NewLeaf(n); }
    Landed(fs, e, c - e.min, f, child, n);
  }

  // What Cover makes of the node is what Covering makes of the shape.
  lemma CoverSlots(fs: Frames, cur: Shape, c: Byte)
    requires Spells(fs, cur) && cur.Tree?
    ensures var n, e := cur.node, Covering(cur, c);
            && n.Ok() && n.pipes == cur.pipes && e.min == ExtendedMin(n.min, n.Slots(), c)
            && Addrs(e.kids) == Extended(n.min, n.Slots(), c, null)
            && Addrs(e.kids)[c - e.min] == Addr(e.kids[c - e.min])
  {
    ExtendedAddrs(cur.min, cur.kids, c);
  }

  lemma NewLeaf(n: GenericMtrie)
    requires n.Ok() && n.pipes == None && n.count == 0
    ensures Spelled(Tree(n, None, n.min, []))
  {
  }

  lemma Landed(fs: Frames, e: Shape, j: int, f: Frame<GenericMtrie>, child: Shape, n: GenericMtrie)
    requires e.Tree? && 0 <= j < |e.kids| && f == Open(e, j) && SepAt(fs + [f], e.kids[j]) && Around(fs, f, e.kids[j])
    requires child.Tree? && child.node == n && Spelled(child)
    requires if e.kids[j].Null? then child.kids == [] && n !in FramesNodes(fs + [f]) else child == e.kids[j]
    requires Holds(f.node, f.pipes, f.min, Addrs(e.kids)[j := n])
    ensures Spells(fs + [f], child) && NodesAt(fs + [f], child) <= NodesAt(fs + [f], e.kids[j]) + {n}
  {
    AddrsOpen(e, j, n);
    GrownSep(fs + [f], e.kids[j], child, n);
    SpellsAround(fs, f, child);
  }

  // The end of `add`: the node of the prefix takes the pipe.
  method Insert(it: GenericMtrie, pipe: Pipe, ghost fs: Frames, ghost cur: Shape)
    returns (result: bool, ghost u: Shape)
    requires cur.Tree? && cur.node == it && Spells(fs, cur) && Canonical(cur)
    modifies it
    ensures u == cur.(pipes := Some(Values(cur) + {pipe})) && Spells(fs, u)
    ensures result <==> Values(cur) == {}
  {
    result := it.pipes.None?;
    if it.pipes.None? {
      it.pipes := Some({});
    }
    it.pipes := Some(it.pipes.value + {pipe});
    u := cur.(pipes := it.pipes);
  }

  // ---------------------------------------------------------------- covering a character

  lemma ExtendedAddrs(min: int, ts: seq<Shape>, c: int)
    ensures Addrs(Extended(min, ts, c, Null)) == Extended(min, Addrs(ts), c, null)
  {
  }

  lemma ExtendedNodes<A>(min: int, ts: seq<Tree<A>>, c: int)
    ensures NodesAll(Extended(min, ts, c, Null)) == NodesAll(ts)
    ensures SepAll(Extended(min, ts, c, Null)) == SepAll(ts)
  {
    if ts == [] {
      VoidNodes(Extended(min, ts, c, Null));
    } else if !(min <= c < min + |ts|) {
      var pad: seq<Tree<A>> := if min < c then seq(c - min - |ts| + 1, _ => Null) else seq(min - c, _ => Null);
      VoidNodes(pad);
      NodesConcat(ts, pad); NodesConcat(pad, ts);
      SepConcat(ts, pad); SepConcat(pad, ts);
    }
  }

  lemma ExtendedSpelled(min: int, ts: seq<Shape>, c: int)
    ensures NodesAll(Extended(min, ts, c, Null)) == NodesAll(ts)
    ensures SpelledAll(Extended(min, ts, c, Null)) == SpelledAll(ts)
  {
    ExtendedNodes(min, ts, c);
    if ts == [] {
      VoidSpelled(Extended(min, ts, c, Null));
    } else if !(min <= c < min + |ts|) {
      var pad: seq<Shape> := if min < c then seq(c - min - |ts| + 1, _ => Null) else seq(min - c, _ => Null);
      VoidSpelled(pad);
      SpelledConcat(ts, pad); SpelledConcat(pad, ts);
    }
  }

  // The node `cur` with its table made to cover `c`.
  ghost function Covering<A>(cur: Tree<A>, c: Byte): (e: Tree<A>)
    requires cur.Tree?
    ensures e.Tree? && e.min <= c < e.min + |e.kids|
  {
    cur.(min := ExtendedMin(cur.min, cur.kids, c), kids := Extended(cur.min, cur.kids, c, Null))
  }

  // Frame `f` and its child are what `add` makes of `cur` on its way to character `c`.
  ghost predicate Grown<A>(cur: Tree<A>, c: Byte, f: Frame<A>, child: Tree<A>) {
    cur.Tree? && child.Tree? &&
    var e := Covering(cur, c);
    var kid := e.kids[c - e.min];
    && f == Open(e, c - e.min)
    && if kid.Null? then child.pipes == None && child.kids == [] && 0 <= child.min < 256 else child == kid
  }

  lemma GrownCanonical<A>(cur: Tree<A>, c: Byte, f: Frame<A>, child: Tree<A>)
    requires Canonical(cur) && Grown(cur, c, f, child)
    ensures CanonicalFrame(f) && Canonical(child) && f.min + |f.left| == c
  {
    var e := Covering(cur, c);
    forall i | 0 <= i < |e.kids| ensures Canonical(e.kids[i]) && !Redundant(e.kids[i]) {
      if !e.kids[i].Null? { assert e.kids[i] in cur.kids; }
    }
    FineSlice(e.kids, 0, c - e.min);
    FineSlice(e.kids, c - e.min + 1, |e.kids|);
    assert f.left == e.kids[0..c - e.min] && f.right == e.kids[c - e.min + 1..|e.kids|];
  }

  lemma GrownMeaning<A>(cur: Tree<A>, c: Byte, f: Frame<A>, child: Tree<A>)
    requires Grown(cur, c, f, child)
    ensures SameMeaning(Fill(f, child), cur)
  {
    var e, u := Covering(cur, c), Fill(f, child);
    assert u.kids == e.kids[c - e.min := child];
    forall k: Key ensures Get(u, k) == Get(cur, k) {
      if k != [] && InRange(u, k[0]) {
        var i := k[0] - u.min;
        if InRange(cur, k[0]) {
          assert e.kids[i] == cur.kids[k[0] - cur.min];
          if e.kids[i].Null? { NullGet(e.kids[i], k[1..]); NullGet(u.kids[i], k[1..]); }
        } else {
          assert e.kids[i].Null?;
          NullGet(u.kids[i], k[1..]);
        }
      }
    }
  }

  // A fresh leaf in an empty hole keeps all nodes apart.
  lemma GrownSep<A>(fs: seq<Frame<A>>, kid: Tree<A>, child: Tree<A>, n: A)
    requires SepAt(fs, kid) && child.Tree? && child.node == n
    requires if kid.Null? then child.kids == [] && n !in FramesNodes(fs) else child == kid
    ensures SepAt(fs, child) && NodesAt(fs, child) <= NodesAt(fs, kid) + {n}
  {
  }

  // The heap around the table of `cur`, before and after it is made to cover `c`.
  lemma GrownAround(fs: Frames, cur: Shape, c: Byte, f: Frame<GenericMtrie>)
    requires Spells(fs, cur) && cur.Tree? && f == Open(Covering(cur, c), c - Covering(cur, c).min)
    ensures var kid := Covering(cur, c).kids[c - Covering(cur, c).min];
            && SepAt(fs + [f], kid) && NodesAt(fs + [f], kid) == NodesAt(fs, cur)
            && AroundNodes(fs, f, kid) <= NodesAt(fs, cur) - {cur.node} && Around(fs, f, kid)
  {
    hide Extended, ExtendedMin, SepFrames, SpelledFrames;
    var e := Covering(cur, c);
    var j := c - e.min;
    ExtendedSpelled(cur.min, cur.kids, c);
    OpenSpelled(e, j);
    ExtendedNodes(cur.min, cur.kids, c);
    OpenFill(e, j);
    SepStep(fs, f, e.kids[j]);
    SpellsAround(fs, f, e.kids[j]);
  }

  // ---------------------------------------------------------------- the loop

  // What the loop of `add` keeps: the way down is canonical and nothing has changed meaning.
  ghost predicate Adding<A>(t: Tree<A>, fs: seq<Frame<A>>, cur: Tree<A>, at: Key) {
    && t.Tree? && cur.Tree? && CanonicalFrames(fs) && Canonical(cur) && Path(fs) == at
    && SameMeaning(Plug(fs, cur), t) && Root(fs, cur) == t.node
  }

  lemma AddingStep<A>(t: Tree<A>, fs: seq<Frame<A>>, cur: Tree<A>, at: Key, c: Byte, f: Frame<A>, child: Tree<A>)
    requires Adding(t, fs, cur, at) && Grown(cur, c, f, child)
    ensures Adding(t, fs + [f], child, at + [c])
  {
    GrownCanonical(cur, c, f, child);
    AllCanonicalPush(fs, f);
    PathPush(fs, f);
    GrownPlug(t, fs, cur, c, f, child);
  }

  lemma GrownPlug<A>(t: Tree<A>, fs: seq<Frame<A>>, cur: Tree<A>, c: Byte, f: Frame<A>, child: Tree<A>)
    requires AllInByte(fs) && SameMeaning(Plug(fs, cur), t) && Grown(cur, c, f, child)
    ensures SameMeaning(Plug(fs + [f], child), t)
  {
    GrownMeaning(cur, c, f, child);
    PlugSame(fs, Fill(f, child), cur);
    PlugPush(fs, f, child);
    SameTrans(Plug(fs + [f], child), Plug(fs, cur), t);
  }

  lemma AddingEnd<A>(t: Tree<A>, fs: seq<Frame<A>>, cur: Tree<A>, at: Key, u: Tree<A>, p: Pipe)
    requires Adding(t, fs, cur, at) && u == cur.(pipes := Some(Values(cur) + {p}))
    ensures Canonical(Plug(fs, u)) && Plug(fs, u).Tree? && Plug(fs, u).node == t.node
    ensures ContentsOf(Plug(fs, u)) == AddSpec(ContentsOf(t), at, p)
    ensures at in ContentsOf(t) <==> Values(cur) != {}
  {
    PlugCanonical(fs, u);
    PlugRoot(fs, u);
    AddMeaning(t, fs, cur, u, p);
  }

  lemma AddMeaning<A>(t: Tree<A>, fs: seq<Frame<A>>, cur: Tree<A>, u: Tree<A>, p: Pipe)
    requires AllInByte(fs) && cur.Tree? && SameMeaning(Plug(fs, cur), t)
    requires u == cur.(pipes := Some(Values(cur) + {p}))
    ensures ContentsOf(Plug(fs, u)) == AddSpec(ContentsOf(t), Path(fs), p)
    ensures Path(fs) in ContentsOf(t) <==> Values(cur) != {}
  {
    var at := Path(fs);
    assert at + [] == at;
    PlugGetIn(fs, u, []);
    PlugGetIn(fs, cur, []);
    assert Get(t, at) == Values(cur);
    forall k: Key | k != at ensures Get(Plug(fs, u), k) == Get(t, k) {
      OtherKey(fs, cur, u, k);
    }
    ContentsAdd(t, Plug(fs, u), at, p);
  }

  lemma ContentsAdd<A>(t: Tree<A>, u: Tree<A>, at: Key, p: Pipe)
    requires Get(u, at) == Get(t, at) + {p}
    requires forall k: Key :: k != at ==> Get(u, k) == Get(t, k)
    ensures ContentsOf(u) == AddSpec(ContentsOf(t), at, p)
    ensures at in ContentsOf(t) <==> Get(t, at) != {}
  {
    var m, n := ContentsOf(u), AddSpec(ContentsOf(t), at, p);
    forall k: Key ensures k in m <==> k in n {}
    forall k: Key | k in m ensures m[k] == n[k] {}
  }
}
