/**
  A place inside a trie: the frames from the root down to a hole, and the subtree in
  the hole.  The explicit stacks of generic_mtrie_t::rm (ExternalLib/libzmq/src/
  generic_mtrie_impl.hpp:153-539) are exactly such lists of frames, so moving one level
  down or up is the one step of proof those loops need.
 */
module MtrieZipper {
  import opened Wrappers
  import opened MtrieShape

  // A node with one slot open: `left` and `right` are the slots around it.
  datatype Frame<A> = Frame(node: A, pipes: Option<set<Pipe>>, min: int, left: seq<Tree<A>>, right: seq<Tree<A>>)

  ghost function Fill<A>(f: Frame<A>, t: Tree<A>): Tree<A> {
    Tree(f.node, f.pipes, f.min, f.left + [t] + f.right)
  }

  ghost function Open<A>(t: Tree<A>, i: int): Frame<A>
    requires t.Tree? && 0 <= i < |t.kids|
  {
    Frame(t.node, t.pipes, t.min, t.kids[..i], t.kids[i + 1..])
  }

  lemma OpenFill<A>(t: Tree<A>, i: int)
    requires t.Tree? && 0 <= i < |t.kids|
    ensures Fill(Open(t, i), t.kids[i]) == t
  {
    assert t.kids[..i] + [t.kids[i]] + t.kids[i + 1..] == t.kids;
  }

  ghost function Plug<A>(fs: seq<Frame<A>>, t: Tree<A>): Tree<A>
    decreases |fs|
  {
    if fs == [] then t else Plug(fs[..|fs| - 1], Fill(fs[|fs| - 1], t))
  }

  lemma PlugPush<A>(fs: seq<Frame<A>>, f: Frame<A>, t: Tree<A>)
    ensures Plug(fs + [f], t) == Plug(fs, Fill(f, t))
  {
    assert (fs + [f])[..|fs|] == fs;
  }

  // ---------------------------------------------------------------- keys

  ghost predicate InByte<A>(f: Frame<A>) {
    0 <= f.min && f.min + |f.left| + 1 + |f.right| <= 256
  }

  ghost predicate AllInByte<A>(fs: seq<Frame<A>>) {
    forall i :: 0 <= i < |fs| ==> InByte(fs[i])
  }

  // The key spelled by the frames.
  ghost function Path<A>(fs: seq<Frame<A>>): (k: Key)
    requires AllInByte(fs)
    ensures |k| == |fs|
    decreases |fs|
  {
    if fs == [] then []
    else Path(fs[..|fs| - 1]) + [fs[|fs| - 1].min + |fs[|fs| - 1].left|]
  }

  lemma PathPush<A>(fs: seq<Frame<A>>, f: Frame<A>)
    requires AllInByte(fs) && InByte(f)
    ensures AllInByte(fs + [f])
    ensures Path(fs + [f]) == Path(fs) + [f.min + |f.left|]
  {
    assert (fs + [f])[..|fs|] == fs;
  }

  // Keys through the hole are looked up in it.
  lemma {:induction false} PlugGetIn<A>(fs: seq<Frame<A>>, t: Tree<A>, k: Key)
    requires AllInByte(fs)
    ensures Get(Plug(fs, t), Path(fs) + k) == Get(t, k)
    decreases |fs|
  {
    if fs == [] {
      assert Path(fs) + k == k;
    } else {
      var f, up := fs[|fs| - 1], fs[..|fs| - 1];
      var c := f.min + |f.left|;
      PlugGetIn(up, Fill(f, t), [c] + k);
      assert Path(fs) + k == Path(up) + ([c] + k);
      GetKid(Fill(f, t), |f.left|, k);
    }
  }

  // All other keys do not depend on what is in the hole.
  lemma {:induction false} PlugGetOut<A>(fs: seq<Frame<A>>, t: Tree<A>, u: Tree<A>, k: Key)
    requires AllInByte(fs) && !(Path(fs) <= k)
    ensures Get(Plug(fs, t), k) == Get(Plug(fs, u), k)
    decreases |fs|
  {
    var f, up := fs[|fs| - 1], fs[..|fs| - 1];
    if Path(up) <= k {
      var r := k[|up|..];
      assert k == Path(up) + r;
      PlugGetIn(up, Fill(f, t), r);
      PlugGetIn(up, Fill(f, u), r);
      PrefixStep(Path(up), f.min + |f.left|, r);
    } else {
      PlugGetOut(up, Fill(f, t), Fill(f, u), k);
    }
  }

  // Replacing the hole by a subtree of the same meaning keeps the meaning of the whole.
  lemma PlugSame<A>(fs: seq<Frame<A>>, t: Tree<A>, u: Tree<A>)
    requires AllInByte(fs) && SameMeaning(t, u)
    ensures SameMeaning(Plug(fs, t), Plug(fs, u))
  {
    forall k: Key ensures Get(Plug(fs, t), k) == Get(Plug(fs, u), k) {
      if Path(fs) <= k {
        assert k == Path(fs) + k[|fs|..];
        PlugGetIn(fs, t, k[|fs|..]);
        PlugGetIn(fs, u, k[|fs|..]);
      } else {
        PlugGetOut(fs, t, u, k);
      }
    }
  }

  // Two subtrees that differ in their own pipes only.
  lemma OtherKey<A>(fs: seq<Frame<A>>, t: Tree<A>, u: Tree<A>, k: Key)
    requires AllInByte(fs) && t.Tree? && u.Tree? && t.min == u.min && t.kids == u.kids && k != Path(fs)
    ensures Get(Plug(fs, u), k) == Get(Plug(fs, t), k)
  {
    var at := Path(fs);
    if at <= k {
      assert k == at + k[|at|..];
      PlugGetIn(fs, u, k[|at|..]);
      PlugGetIn(fs, t, k[|at|..]);
      BelowSame(t, u, k[|at|..]);
    } else {
      PlugGetOut(fs, u, t, k);
    }
  }

  lemma BelowSame<A>(t: Tree<A>, u: Tree<A>, r: Key)
    requires t.Tree? && u.Tree? && t.min == u.min && t.kids == u.kids && r != []
    ensures Get(t, r) == Get(u, r)
  {
  }

  // ---------------------------------------------------------------- canonical frames

  ghost predicate Fine<A>(ts: seq<Tree<A>>) {
    forall i :: 0 <= i < |ts| ==> Canonical(ts[i]) && !Redundant(ts[i])
  }

  // Canonical as soon as the hole holds a live, useful child.
  ghost predicate CanonicalFrame<A>(f: Frame<A>) {
    && InByte(f)
    && (f.pipes.Some? ==> f.pipes.value != {})
    && Fine(f.left) && Fine(f.right)
    && (f.left != [] ==> !f.left[0].Null?)
    && (f.right != [] ==> !f.right[|f.right| - 1].Null?)
  }

  ghost predicate CanonicalFrames<A>(fs: seq<Frame<A>>) {
    forall i :: 0 <= i < |fs| ==> CanonicalFrame(fs[i])
  }

  lemma AllCanonicalPush<A>(fs: seq<Frame<A>>, f: Frame<A>)
    requires CanonicalFrames(fs) && CanonicalFrame(f)
    ensures CanonicalFrames(fs + [f]) && AllInByte(fs + [f])
  {
  }

  lemma FillCanonical<A>(f: Frame<A>, t: Tree<A>)
    requires CanonicalFrame(f) && t.Tree? && Canonical(t) && !Redundant(t)
    ensures Canonical(Fill(f, t)) && !Redundant(Fill(f, t))
  {
    var u := Fill(f, t);
    assert u.kids[|f.left|] == t;
    assert f.right != [] ==> u.kids[|u.kids| - 1] == f.right[|f.right| - 1];
    forall i | 0 <= i < |u.kids| ensures Canonical(u.kids[i]) && !Redundant(u.kids[i]) {
      if i < |f.left| { assert u.kids[i] == f.left[i]; }
      else if i > |f.left| { assert u.kids[i] == f.right[i - |f.left| - 1]; }
    }
  }

  lemma FillLoose<A>(f: Frame<A>)
    requires CanonicalFrame(f)
    ensures Loose(Fill(f, Null))
  {
    var u := Fill(f, Null);
    forall i | 0 <= i < |u.kids| ensures Canonical(u.kids[i]) && !Redundant(u.kids[i]) {
      if i < |f.left| { assert u.kids[i] == f.left[i]; }
      else if i > |f.left| { assert u.kids[i] == f.right[i - |f.left| - 1]; }
    }
  }

  lemma {:induction false} PlugCanonical<A>(fs: seq<Frame<A>>, t: Tree<A>)
    requires CanonicalFrames(fs) && t.Tree? && Canonical(t) && (fs != [] ==> !Redundant(t))
    ensures Canonical(Plug(fs, t))
    decreases |fs|
  {
    if fs != [] {
      FillCanonical(fs[|fs| - 1], t);
      PlugCanonical(fs[..|fs| - 1], Fill(fs[|fs| - 1], t));
    }
  }

  lemma OpenCanonical<A>(t: Tree<A>, i: int)
    requires t.Tree? && Canonical(t) && 0 <= i < |t.kids|
    ensures CanonicalFrame(Open(t, i))
  {
    var f := Open(t, i);
    assert Fine(t.kids);
    hide Canonical, Redundant, Fine;
    FineSlice(t.kids, 0, i);
    FineSlice(t.kids, i + 1, |t.kids|);
    assert f.left == t.kids[0..i] && f.right == t.kids[i + 1..|t.kids|];
    assert f.right != [] ==> f.right[|f.right| - 1] == t.kids[|t.kids| - 1];
  }

  lemma FineSlice<A>(ts: seq<Tree<A>>, lo: int, hi: int)
    requires Fine(ts) && 0 <= lo <= hi <= |ts|
    ensures Fine(ts[lo..hi])
  {
    forall i | 0 <= i < hi - lo ensures Canonical(ts[lo..hi][i]) && !Redundant(ts[lo..hi][i]) {
      assert ts[lo..hi][i] == ts[lo + i];
    }
  }

  // ---------------------------------------------------------------- footprints

  ghost function Nodes<A>(t: Tree<A>): set<A>
    decreases t, 1
  {
    if t.Null? then {} else {t.node} + NodesAll(t.kids)
  }

  ghost function NodesAll<A>(ts: seq<Tree<A>>): set<A>
    decreases ts, 0
  {
    if ts == [] then {} else Nodes(ts[0]) + NodesAll(ts[1..])
  }

  // No node occurs twice.
  ghost predicate Sep<A>(t: Tree<A>)
    decreases t, 1
  {
    t.Null? || (t.node !in NodesAll(t.kids) && SepAll(t.kids))
  }

  ghost predicate SepAll<A>(ts: seq<Tree<A>>)
    decreases ts, 0
  {
    ts == [] || (Sep(ts[0]) && SepAll(ts[1..]) && Nodes(ts[0]) !! NodesAll(ts[1..]))
  }

  lemma {:induction false} NodesConcat<A>(a: seq<Tree<A>>, b: seq<Tree<A>>)
    ensures NodesAll(a + b) == NodesAll(a) + NodesAll(b)
    decreases a
  {
    if a == [] {
      assert a + b == b;
    } else {
      NodesConcat(a[1..], b);
      assert (a + b)[1..] == a[1..] + b;
    }
  }

  lemma {:induction false} SepConcat<A>(a: seq<Tree<A>>, b: seq<Tree<A>>)
    ensures SepAll(a + b) <==> SepAll(a) && SepAll(b) && NodesAll(a) !! NodesAll(b)
    decreases a
  {
    if a == [] {
      assert a + b == b;
    } else {
      SepConcat(a[1..], b);
      NodesConcat(a[1..], b);
      assert (a + b)[1..] == a[1..] + b;
    }
  }

  ghost function FrameNodes<A>(f: Frame<A>): set<A> {
    {f.node} + NodesAll(f.left) + NodesAll(f.right)
  }

  ghost predicate SepFrame<A>(f: Frame<A>) {
    && f.node !in NodesAll(f.left) + NodesAll(f.right)
    && SepAll(f.left) && SepAll(f.right) && NodesAll(f.left) !! NodesAll(f.right)
  }

  ghost function FramesNodes<A>(fs: seq<Frame<A>>): set<A>
    decreases |fs|
  {
    if fs == [] then {} else FramesNodes(fs[..|fs| - 1]) + FrameNodes(fs[|fs| - 1])
  }

  ghost predicate SepFrames<A>(fs: seq<Frame<A>>)
    decreases |fs|
  {
    fs == [] ||
    (&& SepFrames(fs[..|fs| - 1]) && SepFrame(fs[|fs| - 1])
     && FramesNodes(fs[..|fs| - 1]) !! FrameNodes(fs[|fs| - 1]))
  }

  lemma FramesPush<A>(fs: seq<Frame<A>>, f: Frame<A>)
    ensures FramesNodes(fs + [f]) == FramesNodes(fs) + FrameNodes(f)
    ensures SepFrames(fs + [f]) <==> SepFrames(fs) && SepFrame(f) && FramesNodes(fs) !! FrameNodes(f)
  {
    assert (fs + [f])[..|fs|] == fs;
  }

  lemma FillNodes<A>(f: Frame<A>, t: Tree<A>)
    ensures Nodes(Fill(f, t)) == FrameNodes(f) + Nodes(t)
    ensures Sep(Fill(f, t)) <==> SepFrame(f) && Sep(t) && FrameNodes(f) !! Nodes(t)
  {
    NodesConcat(f.left + [t], f.right);
    NodesConcat(f.left, [t]);
    SepConcat(f.left + [t], f.right);
    SepConcat(f.left, [t]);
    assert NodesAll([t]) == Nodes(t) by { assert [t][1..] == []; }
    assert SepAll([t]) <==> Sep(t) by { assert [t][1..] == []; }
  }

  // The whole zipper: no node occurs twice, in the frames or in the hole.
  ghost predicate SepAt<A>(fs: seq<Frame<A>>, t: Tree<A>) {
    SepFrames(fs) && Sep(t) && FramesNodes(fs) !! Nodes(t)
  }

  ghost function NodesAt<A>(fs: seq<Frame<A>>, t: Tree<A>): set<A> {
    FramesNodes(fs) + Nodes(t)
  }

  // One level up, or down: the same nodes, still separate.
  lemma SepStep<A>(fs: seq<Frame<A>>, f: Frame<A>, t: Tree<A>)
    ensures SepAt(fs + [f], t) <==> SepAt(fs, Fill(f, t))
    ensures NodesAt(fs + [f], t) == NodesAt(fs, Fill(f, t))
  {
    FramesPush(fs, f);
    FillNodes(f, t);
  }

  lemma {:induction false} VoidNodes<A>(ts: seq<Tree<A>>)
    requires Void(ts, Null)
    ensures NodesAll(ts) == {} && SepAll(ts)
    decreases ts
  {
    if ts != [] { VoidNodes(ts[1..]); }
  }

  lemma SliceNodes<A>(ts: seq<Tree<A>>, lo: int, hi: int)
    requires 0 <= lo <= hi <= |ts|
    ensures NodesAll(ts[lo..hi]) <= NodesAll(ts)
    ensures SepAll(ts) ==> SepAll(ts[lo..hi])
  {
    hide NodesAll, SepAll;
    assert ts == ts[..lo] + (ts[lo..hi] + ts[hi..]);
    NodesConcat(ts[..lo], ts[lo..hi] + ts[hi..]);
    NodesConcat(ts[lo..hi], ts[hi..]);
    SepConcat(ts[..lo], ts[lo..hi] + ts[hi..]);
    SepConcat(ts[lo..hi], ts[hi..]);
  }

  lemma CutNodes<A>(ts: seq<Tree<A>>)
    ensures NodesAll(Cut(ts, Null)) <= NodesAll(ts)
    ensures SepAll(ts) ==> SepAll(Cut(ts, Null))
  {
    if !Void(ts, Null) { SliceNodes(ts, First(ts, Null), Last(ts, Null)); }
  }

  // ---------------------------------------------------------------- the root

  // The outermost node.
  ghost function Root<A>(fs: seq<Frame<A>>, t: Tree<A>): A
    requires t.Tree?
  {
    if fs == [] then t.node else fs[0].node
  }

  lemma {:induction false} PlugRoot<A>(fs: seq<Frame<A>>, t: Tree<A>)
    requires t.Tree?
    ensures Plug(fs, t).Tree? && Plug(fs, t).node == Root(fs, t)
    decreases |fs|
  {
    if fs != [] { PlugRoot(fs[..|fs| - 1], Fill(fs[|fs| - 1], t)); }
  }
}
