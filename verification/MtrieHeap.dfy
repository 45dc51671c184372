/**
  Shapes in the heap: a ghost tree holds the addresses of the nodes it stands for, and
  `Spells` says that those nodes hold exactly what the tree says and that no node
  occurs twice.
 */
module MtrieHeap {
  import opened Wrappers
  import opened MtrieShape
  import opened MtrieZipper
  import opened MtrieNode

  type Shape = Tree<GenericMtrie>
  type Frames = seq<Frame<GenericMtrie>>

  // struct iter, the entry of both explicit stacks.
  datatype Iter = Iter(node: GenericMtrie, nextNode: GenericMtrie?, prefix: Key, size: nat,
                       currentChild: int, newMin: int, newMax: int, processed: bool)

  ghost function Addr(t: Shape): GenericMtrie? {
    if t.Null? then null else t.node
  }

  ghost function Addrs(ts: seq<Shape>): (r: seq<GenericMtrie?>)
    ensures |r| == |ts|
    ensures forall i :: 0 <= i < |ts| ==> r[i] == Addr(ts[i])
  {
    seq(|ts|, i requires 0 <= i < |ts| => Addr(ts[i]))
  }

  // Node `n` holds exactly these fields.
  ghost predicate Holds(n: GenericMtrie, pipes: Option<set<Pipe>>, min: int, slots: seq<GenericMtrie?>)
    reads n
  {
    n.Ok() && n.pipes == pipes && n.min == min && n.Slots() == slots
  }

  ghost predicate Spelled(t: Shape)
    reads Nodes(t)
    decreases t, 1
  {
    t.Null? || (Holds(t.node, t.pipes, t.min, Addrs(t.kids)) && SpelledAll(t.kids))
  }

  ghost predicate SpelledAll(ts: seq<Shape>)
    reads NodesAll(ts)
    decreases ts, 0
  {
    ts == [] || (Spelled(ts[0]) && SpelledAll(ts[1..]))
  }

  // The hole of the innermost frame holds address `a`.
  ghost predicate SpelledFrames(fs: Frames, a: GenericMtrie?)
    reads FramesNodes(fs)
    decreases |fs|
  {
    fs == [] ||
    var f := fs[|fs| - 1];
    && Holds(f.node, f.pipes, f.min, Addrs(f.left) + [a] + Addrs(f.right))
    && SpelledAll(f.left) && SpelledAll(f.right)
    && SpelledFrames(fs[..|fs| - 1], f.node)
  }

  // The heap spells the frames and the subtree in their hole, and no node occurs twice.
  ghost predicate Spells(fs: Frames, t: Shape)
    reads NodesAt(fs, t)
  {
    SepAt(fs, t) && SpelledFrames(fs, Addr(t)) && Spelled(t)
  }

  // A whole trie: `root` and the nodes below it spell the canonical tree `t`.
  ghost predicate IsTrie(root: GenericMtrie, t: Shape)
    reads Nodes(t)
  {
    t.Tree? && t.node == root && Spells([], t) && Canonical(t)
  }

  // ---------------------------------------------------------------- moving in the tree

  lemma {:induction false} SpelledConcat(a: seq<Shape>, b: seq<Shape>)
    ensures SpelledAll(a + b) <==> SpelledAll(a) && SpelledAll(b)
    decreases a
  {
    if a == [] {
      assert a + b == b;
    } else {
      SpelledConcat(a[1..], b);
      assert (a + b)[1..] == a[1..] + b;
    }
  }

  lemma SpelledFill(f: Frame<GenericMtrie>, t: Shape)
    ensures Spelled(Fill(f, t)) <==>
            && Holds(f.node, f.pipes, f.min, Addrs(f.left) + [Addr(t)] + Addrs(f.right))
            && SpelledAll(f.left) && SpelledAll(f.right) && Spelled(t)
  {
    SpelledConcat(f.left + [t], f.right);
    SpelledConcat(f.left, [t]);
    assert SpelledAll([t]) <==> Spelled(t) by { assert [t][1..] == []; }
    assert Addrs(f.left + [t] + f.right) == Addrs(f.left) + [Addr(t)] + Addrs(f.right);
  }

  // One level up, or down.
  lemma SpellsStep(fs: Frames, f: Frame<GenericMtrie>, t: Shape)
    ensures Spells(fs + [f], t) <==> Spells(fs, Fill(f, t))
  {
    SepStep(fs, f, t);
    SpelledFill(f, t);
    assert (fs + [f])[..|fs|] == fs;
  }

  lemma SpellsDown(fs: Frames, t: Shape, f: Frame<GenericMtrie>, i: int)
    requires t.Tree? && 0 <= i < |t.kids| && f == Open(t, i) && Spells(fs, t)
    ensures Spells(fs + [f], t.kids[i]) && NodesAt(fs + [f], t.kids[i]) == NodesAt(fs, t)
  {
    OpenFill(t, i);
    SpellsStep(fs, f, t.kids[i]);
    SepStep(fs, f, t.kids[i]);
  }

  lemma {:induction false} SpellsPlug(fs: Frames, t: Shape)
    requires Spells(fs, t)
    ensures Spells([], Plug(fs, t)) && NodesAt([], Plug(fs, t)) == NodesAt(fs, t)
    decreases |fs|
  {
    if fs != [] {
      var f, up := fs[|fs| - 1], fs[..|fs| - 1];
      assert fs == up + [f];
      SpellsStep(up, f, t);
      SepStep(up, f, t);
      SpellsPlug(up, Fill(f, t));
    }
  }

  lemma OpenSpelled(t: Shape, i: int)
    requires t.Tree? && 0 <= i < |t.kids| && SpelledAll(t.kids)
    ensures SpelledAll(t.kids[..i]) && Spelled(t.kids[i]) && SpelledAll(t.kids[i + 1..])
  {
    assert t.kids == t.kids[..i] + ([t.kids[i]] + t.kids[i + 1..]);
    SpelledConcat(t.kids[..i], [t.kids[i]] + t.kids[i + 1..]);
    assert ([t.kids[i]] + t.kids[i + 1..])[1..] == t.kids[i + 1..];
  }

  lemma SpelledNext(t: Shape, c: Byte)
    requires t.Tree? && Spelled(t)
    ensures t.node.NextFor(c) == null <==> !(InRange(t, c) && t.kids[c - t.min].Tree?)
    ensures t.node.NextFor(c) != null ==> t.node.NextFor(c) == t.kids[c - t.min].node
  {
  }

  lemma SpelledRedundant(t: Shape)
    requires t.Tree? && Spelled(t)
    ensures t.node.IsRedundant() <==> Redundant(t)
  {
    LiveVoid(Addrs(t.kids), null);
    assert forall i :: 0 <= i < |t.kids| ==> (t.kids[i].Null? <==> Addrs(t.kids)[i] == null);
  }

  lemma {:induction false} VoidSpelled(ts: seq<Shape>)
    requires Void(ts, Null)
    ensures SpelledAll(ts)
    decreases ts
  {
    if ts != [] { VoidSpelled(ts[1..]); }
  }

  // ---------------------------------------------------------------- changing one node

  lemma AllAllocated(s: set<GenericMtrie>)
    ensures forall o :: o in s ==> allocated(o)
  {
  }

  // Everything but the node of frame `f` itself.
  ghost function AroundNodes(fs: Frames, f: Frame<GenericMtrie>, t: Shape): set<GenericMtrie> {
    FramesNodes(fs) + NodesAll(f.left) + NodesAll(f.right) + Nodes(t)
  }

  ghost predicate Around(fs: Frames, f: Frame<GenericMtrie>, t: Shape)
    reads AroundNodes(fs, f, t)
  {
    SpelledFrames(fs, f.node) && SpelledAll(f.left) && SpelledAll(f.right) && Spelled(t)
  }

  lemma SpellsAround(fs: Frames, f: Frame<GenericMtrie>, t: Shape)
    ensures Spells(fs + [f], t) <==>
            && SepAt(fs + [f], t) && Around(fs, f, t)
            && Holds(f.node, f.pipes, f.min, Addrs(f.left) + [Addr(t)] + Addrs(f.right))
    ensures SepAt(fs + [f], t) ==> f.node !in AroundNodes(fs, f, t)
  {
    FramesPush(fs, f);
    assert (fs + [f])[..|fs|] == fs;
  }

  lemma AddrsOpen(t: Shape, i: int, n: GenericMtrie?)
    requires t.Tree? && 0 <= i < |t.kids|
    ensures Addrs(t.kids)[i := n] == Addrs(t.kids[..i]) + [n] + Addrs(t.kids[i + 1..])
  {
  }

  lemma SpellsEmptied(fs: Frames, f: Frame<GenericMtrie>, t: Shape)
    requires Spells(fs + [f], t)
    ensures SepAt(fs + [f], Null) && Around(fs, f, Null) && f.node !in AroundNodes(fs, f, Null)
    ensures NodesAt(fs + [f], Null) <= NodesAt(fs + [f], t)
    ensures Holds(f.node, f.pipes, f.min, Addrs(f.left) + [Addr(t)] + Addrs(f.right))
  {
    SpellsAround(fs, f, t);
    FramesPush(fs, f);
  }

  // ---------------------------------------------------------------- trimming a table

  lemma SameCut<S, T>(s: seq<S>, y: S, t: seq<T>, z: T)
    requires |s| == |t| && forall i :: 0 <= i < |s| ==> (s[i] == y <==> t[i] == z)
    ensures First(s, y) == First(t, z) && Last(s, y) == Last(t, z) && (Void(s, y) <==> Void(t, z))
  {
    if Void(s, y) {
      assert First(t, z) == |t| && First(s, y) == |s|;
      assert Last(t, z) == 0 && Last(s, y) == 0;
    } else {
      FirstIs(t, z, First(s, y));
      LastIs(t, z, Last(s, y));
    }
  }

  lemma AddrsSlice(ts: seq<Shape>, lo: nat, hi: nat)
    requires lo <= hi <= |ts|
    ensures Addrs(ts[lo..hi]) == Addrs(ts)[lo..hi]
  {
  }

  lemma AddrsCut(min: int, ts: seq<Shape>)
    ensures Addrs(Cut(ts, Null)) == Cut(Addrs(ts), null)
    ensures CutMin(min, ts, Null) == CutMin(min, Addrs(ts), null)
  {
    hide First, Last;
    assert forall i :: 0 <= i < |ts| ==> (ts[i] == Null <==> Addrs(ts)[i] == null);
    SameCut(ts, Null, Addrs(ts), null);
    if Void(ts, Null) { assert Addrs([]) == []; } else { AddrsSlice(ts, First(ts, Null), Last(ts, Null)); }
  }

  lemma SliceSpelled(ts: seq<Shape>, lo: int, hi: int)
    requires 0 <= lo <= hi <= |ts| && SpelledAll(ts)
    ensures SpelledAll(ts[lo..hi])
  {
    assert ts == ts[..lo] + (ts[lo..hi] + ts[hi..]);
    SpelledConcat(ts[..lo], ts[lo..hi] + ts[hi..]);
    SpelledConcat(ts[lo..hi], ts[hi..]);
  }

  lemma CutSpelled(ts: seq<Shape>)
    requires SpelledAll(ts)
    ensures SpelledAll(Cut(ts, Null))
  {
    if !Void(ts, Null) { SliceSpelled(ts, First(ts, Null), Last(ts, Null)); }
  }

  // The heap after the table of node `t` has been trimmed.
  lemma SpellsCut(fs: Frames, t: Shape)
    requires t.Tree? && SepAt(fs, t) && SpelledFrames(fs, t.node) && SpelledAll(t.kids)
    requires Holds(t.node, t.pipes, CutMin(t.min, Addrs(t.kids), null), Cut(Addrs(t.kids), null))
    ensures Spells(fs, Trim(t)) && NodesAt(fs, Trim(t)) <= NodesAt(fs, t)
  {
    AddrsCut(t.min, t.kids);
    CutNodes(t.kids);
    CutSpelled(t.kids);
  }

  // The same for a frame whose slot has been emptied.
  lemma SpellsTrim(fs: Frames, f: Frame<GenericMtrie>)
    requires SepAt(fs + [f], Null) && Around(fs, f, Null)
    requires var s := Addrs(Fill(f, Null).kids); Holds(f.node, f.pipes, CutMin(f.min, s, null), Cut(s, null))
    ensures Spells(fs, Trim(Fill(f, Null))) && NodesAt(fs, Trim(Fill(f, Null))) <= NodesAt(fs + [f], Null)
  {
    SepStep(fs, f, Null);
    SpelledConcat(f.left + [Null], f.right);
    SpelledConcat(f.left, [Null]);
    VoidSpelled([Null]);
    SpellsCut(fs, Fill(f, Null));
  }
}
