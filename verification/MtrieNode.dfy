/**
  One node of the subscription multi-trie of ExternalLib/libzmq/src/generic_mtrie_impl.hpp,
  and the changes its loops make to a single node: growing, filling and compacting the table.
 */
module MtrieNode {
  import opened Wrappers
  import opened MtrieShape

  // The union `_next`: one inline child, or a table.
  datatype Next = Single(node: GenericMtrie?) | Table(table: seq<GenericMtrie?>)

  // ---------------------------------------------------------------- slots

  ghost function Live<T>(s: seq<T>, z: T): nat {
    if s == [] then 0 else (if s[0] != z then 1 else 0) + Live(s[1..], z)
  }

  lemma {:induction false} LiveConcat<T>(a: seq<T>, b: seq<T>, z: T)
    ensures Live(a + b, z) == Live(a, z) + Live(b, z)
    decreases a
  {
    if a == [] {
      assert a + b == b;
    } else {
      LiveConcat(a[1..], b, z);
      assert (a + b)[1..] == a[1..] + b;
    }
  }

  lemma {:induction false} LiveVoid<T>(s: seq<T>, z: T)
    ensures Live(s, z) == 0 <==> Void(s, z)
    decreases s
  {
    if s != [] {
      LiveVoid(s[1..], z);
      assert s == [s[0]] + s[1..];
      if Void(s[1..], z) && s[0] == z {
        forall i | 0 <= i < |s| ensures s[i] == z { if i > 0 { assert s[i] == s[1..][i - 1]; } }
      }
    }
  }

  lemma LiveAt<T>(s: seq<T>, z: T, i: int, x: T)
    requires 0 <= i < |s|
    ensures Live(s[i := x], z) == Live(s, z) - (if s[i] != z then 1 else 0) + (if x != z then 1 else 0)
  {
    var a, b := s[..i], s[i + 1..];
    assert s == a + ([s[i]] + b) && s[i := x] == a + ([x] + b);
    LiveConcat(a, [s[i]] + b, z);
    LiveConcat(a, [x] + b, z);
    assert ([s[i]] + b)[1..] == b && ([x] + b)[1..] == b;
  }

  // Cutting off empty ends loses no live slot.
  lemma LiveCut<T>(s: seq<T>, z: T)
    ensures Live(Cut(s, z), z) == Live(s, z)
  {
    hide First, Last;
    LiveVoid(s, z);
    if !Void(s, z) {
      var f, l := First(s, z), Last(s, z);
      assert f < l;
      assert s == s[..f] + (s[f..l] + s[l..]);
      LiveConcat(s[..f], s[f..l] + s[l..], z);
      LiveConcat(s[f..l], s[l..], z);
      LiveVoid(s[..f], z);
      LiveVoid(s[l..], z);
    }
  }

  // Exactly one live slot: the first is the last.
  lemma LiveOne<T>(s: seq<T>, z: T)
    requires Live(s, z) == 1
    ensures !Void(s, z) && Last(s, z) == First(s, z) + 1
  {
    LiveVoid(s, z);
    var f := First(s, z);
    var rest := s[f + 1..];
    assert s == s[..f] + ([s[f]] + rest);
    LiveConcat(s[..f], [s[f]] + rest, z);
    LiveConcat([s[f]], rest, z);
    LiveVoid(rest, z);
    assert forall i :: f + 1 <= i < |s| ==> s[i] == rest[i - (f + 1)];
    LastIs(s, z, f + 1);
  }

  lemma LiveBound<T>(s: seq<T>, z: T)
    ensures Live(s, z) <= |s|
  {
  }

  lemma LiveTwo<T>(s: seq<T>, z: T)
    requires |s| > 1 && s[0] != z && s[|s| - 1] != z
    ensures Live(s, z) >= 2
  {
    LiveAt(s, z, 0, z);
    var s' := s[0 := z];
    LiveVoid(s', z);
    assert s'[|s| - 1] == s[|s| - 1];
  }

  // The table of `add` after it has been made to cover character `c`.
  ghost function Extended<T>(min: int, s: seq<T>, c: int, z: T): seq<T> {
    if min <= c < min + |s| then s
    else if s == [] then [z]
    else if min < c then s + seq(c - min - |s| + 1, _ => z)
    else seq(min - c, _ => z) + s
  }

  ghost function ExtendedMin<T>(min: int, s: seq<T>, c: int): int {
    if s == [] || c < min then c else min
  }

  lemma ExtendedLive(min: int, s: seq<GenericMtrie?>, c: int)
    ensures Live(Extended(min, s, c, null), null) == Live(s, null)
  {
    if !(min <= c < min + |s|) && s != [] {
      var pad: seq<GenericMtrie?> := if min < c then seq(c - min - |s| + 1, _ => null) else seq(min - c, _ => null);
      LiveVoid(pad, null);
      LiveConcat(s, pad, null);
      LiveConcat(pad, s, null);
    }
  }

  class GenericMtrie {
    var pipes: Option<set<Pipe>>
    var min: Byte
    var count: nat
    var liveNodes: nat
    var next: Next

    constructor ()
      ensures pipes == None && count == 0 && liveNodes == 0 && Ok()
    {
      pipes := None;
      min, count, liveNodes := 0, 0, 0;
      next := Single(null);
    }

    // One node by itself: the union is read as what it was written, and `liveNodes` counts.
    ghost predicate Ok()
      reads this
    {
      && min + count <= 256
      && (count == 1 ==> next.Single?)
      && (count > 1 ==> next.Table? && |next.table| == count)
      && liveNodes == Live(Slots(), null)
    }

    ghost function Slots(): seq<GenericMtrie?>
      reads this
    {
      if count == 0 then []
      else if count == 1 then (if next.Single? then [next.node] else [])
      else if next.Table? then next.table else []
    }

    predicate IsRedundant()
      reads this
    {
      pipes.None? && liveNodes == 0
    }

    // The slot for `c`, as `rm` of a key reads it: null when `c` is out of range.
    function NextFor(c: Byte): (n: GenericMtrie?)
      requires Ok()
      reads this
      ensures n == if min <= c < min + count then Slots()[c - min] else null
    {
      if count == 0 || c < min || c >= min + count then null
      else if count == 1 then next.node
      else next.table[c - min]
    }

    // The four ways `add` makes the table cover `c`.
    method Extend(c: Byte)
      requires Ok()
      modifies this
      ensures Ok() && pipes == old(pipes)
      ensures min == ExtendedMin(old(min), old(Slots()), c)
      ensures Slots() == Extended(old(min), old(Slots()), c, null)
      ensures min <= c < min + count
    {
      ghost var s := Slots();
      if c < min || c >= min + count {
        if count == 0 {
          min := c;
          count := 1;
          next := Single(null);
        } else if count == 1 {
          var oldc := min;
          var oldp := next.node;
          count := (if min < c then c - min else min - c) + 1;
          var table: seq<GenericMtrie?> := seq(count, _ => null);
          min := if min < c then min else c;
          next := Table(table[oldc - min := oldp]);
          assert Slots() == Extended(oldc, s, c, null);
        } else if min < c {
          var oldCount := count;
          count := c - min + 1;
          next := Table(next.table + seq(count - oldCount, _ => null));
        } else {
          var oldCount := count;
          count := (min + oldCount) - c;
          next := Table(seq(min - c, _ => null) + next.table);
          min := c;
        }
        ExtendedLive(old(min), s, c);
      }
    }

    // The child for `c`, created if it is missing.
    method Child(c: Byte) returns (n: GenericMtrie)
      requires Ok() && min <= c < min + count
      modifies this
      ensures Ok() && pipes == old(pipes) && min == old(min)
      ensures Slots() == old(Slots())[c - min := n]
      ensures old(Slots())[c - min] != null ==> n == old(Slots())[c - min]
      ensures old(Slots())[c - min] == null ==> fresh(n) && n.Ok() && n.pipes == None && n.count == 0
    {
      ghost var s := Slots();
      if count == 1 {
        if next.node == null {
          var child := new GenericMtrie();
          next := Single(child);
          liveNodes := liveNodes + 1;
        }
        n := next.node;
      } else {
        if next.table[c - min] == null {
          var child := new GenericMtrie();
          next := Table(next.table[c - min := child]);
          liveNodes := liveNodes + 1;
        }
        n := next.table[c - min];
      }
      LiveAt(s, null, c - min, n);
    }

    // Covering `c` and finding its child, as one change of this node.
    method Cover(c: Byte) returns (n: GenericMtrie)
      requires Ok()
      modifies this
      ensures Ok() && pipes == old(pipes) && min == ExtendedMin(old(min), old(Slots()), c)
      ensures var s := Extended(old(min), old(Slots()), c, null);
              && 0 <= c - min < |s| && Slots() == s[c - min := n]
              && (if s[c - min] != null then n == s[c - min]
                  else fresh(n) && n.Ok() && n.pipes == None && n.count == 0)
    {
      Extend(c);
      n := Child(c);
    }

    // Removal of a redundant child by `rm` of a key ...
    method DropChild(c: Byte)
      requires Ok() && min <= c < min + count
      requires Slots()[0] != null && Slots()[count - 1] != null && Slots()[c - min] != null
      modifies this
      ensures Ok() && pipes == old(pipes)
      ensures var rest := old(Slots())[c - old(min) := null];
              Slots() == Cut(rest, null) && min == CutMin(old(min), rest, null)
    {
      if count == 1 {
        LiveAt(Slots(), null, 0, null);
        assert Slots()[0 := null] == [null];
        next := Single(null);
        count := 0;
        liveNodes := liveNodes - 1;
        assert liveNodes == 0;
      } else {
        DropFromTable(c);
      }
    }

    // ... with the three compactions of a table.
    method DropFromTable(c: Byte)
      requires Ok() && count > 1 && min <= c < min + count
      requires Slots()[0] != null && Slots()[count - 1] != null && Slots()[c - min] != null
      modifies this
      ensures Ok() && pipes == old(pipes)
      ensures var rest := old(Slots())[c - old(min) := null];
              Slots() == Cut(rest, null) && min == CutMin(old(min), rest, null)
    {
      ghost var rest := Slots()[c - min := null];
      LiveAt(Slots(), null, c - min, null);
      LiveTwo(Slots(), null);
      next := Table(next.table[c - min := null]);
      assert liveNodes > 1;
      liveNodes := liveNodes - 1;
      if liveNodes == 1 {
        CompactToSingle(rest);
      } else if c == min {
        CompactLeft(rest);
      } else if c == min + count - 1 {
        CompactRight(rest);
      } else {
        FirstIs(rest, null, 0);
        LastIs(rest, null, |rest|);
      }
    }

    method CompactToSingle(ghost s: seq<GenericMtrie?>)
      requires Ok() && count > 1 && liveNodes == 1 && s == Slots()
      modifies this
      ensures Ok() && pipes == old(pipes)
      ensures Slots() == Cut(s, null) && min == CutMin(old(min), s, null)
    {
      LiveOne(s, null);
      LiveCut(s, null);
      var i := 0;
      while i < count && next.table[i] == null
        invariant 0 <= i <= First(s, null) < count && s == next.table
      {
        i := i + 1;
      }
      FirstIs(s, null, i);
      min := min + i;
      count := 1;
      var oldp := next.table[i];
      next := Single(oldp);
    }

    method CompactLeft(ghost s: seq<GenericMtrie?>)
      requires Ok() && count > 1 && liveNodes > 1 && s == Slots()
      requires s[0] == null && s[count - 1] != null
      modifies this
      ensures Ok() && pipes == old(pipes)
      ensures Slots() == Cut(s, null) && min == CutMin(old(min), s, null)
    {
      LiveVoid(s, null);
      LiveCut(s, null);
      LastIs(s, null, |s|);
      var i := 1;
      while i < count && next.table[i] == null
        invariant 1 <= i <= First(s, null) < count && s == next.table
      {
        i := i + 1;
      }
      FirstIs(s, null, i);
      LiveBound(Cut(s, null), null);
      min := min + i;
      count := count - i;
      next := Table(next.table[i..i + count]);
    }

    method CompactRight(ghost s: seq<GenericMtrie?>)
      requires Ok() && count > 1 && liveNodes > 1 && s == Slots()
      requires s[0] != null && s[count - 1] == null
      modifies this
      ensures Ok() && pipes == old(pipes)
      ensures Slots() == Cut(s, null) && min == CutMin(old(min), s, null)
    {
      LiveVoid(s, null);
      LiveCut(s, null);
      FirstIs(s, null, 0);
      var i := 1;
      while i < count && next.table[count - 1 - i] == null
        invariant 1 <= i && Last(s, null) <= count - i && s == next.table && i < count
      {
        i := i + 1;
      }
      LastIs(s, null, count - i);
      LiveBound(Cut(s, null), null);
      assert Cut(s, null) == s[0..count - i];
      count := count - i;
      next := Table(next.table[0..count]);
    }

    // The child in slot `i`, inline or in the table.
    function SlotAt(i: nat): (n: GenericMtrie?)
      requires Ok() && i < count
      reads this
      ensures n == Slots()[i]
    {
      if count == 1 then next.node else next.table[i]
    }

    // `_pipes->erase`, with the decision whether to call back.
    method EraseValue(pipe: Pipe, callOnUniq: bool) returns (called: bool)
      modifies this
      ensures pipes == Erase(old(pipes), pipe) && called == Reports(old(pipes), pipe, callOnUniq)
      ensures min == old(min) && count == old(count) && liveNodes == old(liveNodes) && next == old(next)
    {
      called := false;
      if pipes.Some? && pipe in pipes.value {
        pipes := Some(pipes.value - {pipe});
        assert old(pipes).value == pipes.value + {pipe};
        called := !callOnUniq || pipes.value == {};
        if pipes.value == {} {
          pipes := None;
        }
      }
    }

    // Deleting a redundant child of a table leaves an empty slot ...
    method EmptySlot(i: nat)
      requires Ok() && count > 1 && i < count && Slots()[i] != null
      modifies this
      ensures Ok() && pipes == old(pipes) && min == old(min) && Slots() == old(Slots())[i := null]
    {
      LiveAt(Slots(), null, i, null);
      next := Table(next.table[i := null]);
      assert liveNodes > 0;
      liveNodes := liveNodes - 1;
    }

    // ... and an only child leaves no table.
    method EmptySingle()
      requires Ok() && count == 1 && Slots()[0] != null
      modifies this
      ensures Ok() && pipes == old(pipes) && min == old(min) && Slots() == []
    {
      LiveAt(Slots(), null, 0, null);
      next := Single(null);
      count := 0;
      liveNodes := liveNodes - 1;
      assert liveNodes == 0;
    }

    // The table after all children have been visited, given the first and last live characters.
    method Compact(newMin: int, newMax: int)
      requires Ok() && count > 1
      requires newMin == NewMin(min, count, Slots(), null) && newMax == NewMax(min, Slots(), null)
      modifies this
      ensures Ok() && pipes == old(pipes)
      ensures Slots() == Cut(old(Slots()), null) && min == CutMin(old(min), old(Slots()), null)
    {
      LiveVoid(Slots(), null);
      LiveCut(Slots(), null);
      if liveNodes == 0 {
        next := Single(null);
        count := 0;
      } else if liveNodes == 1 {
        ToSingle(newMin, newMax);
      } else if newMin > min || newMax < min + count - 1 {
        ToSmaller(newMin, newMax);
      }
    }

    method ToSingle(newMin: int, newMax: int)
      requires Ok() && count > 1 && liveNodes == 1
      requires newMin == NewMin(min, count, Slots(), null) && newMax == NewMax(min, Slots(), null)
      modifies this
      ensures Ok() && pipes == old(pipes)
      ensures Slots() == Cut(old(Slots()), null) && min == CutMin(old(min), old(Slots()), null)
    {
      LiveOne(Slots(), null);
      LiveCut(Slots(), null);
      assert newMin == newMax && min <= newMin < min + count;
      var node := next.table[newMin - min];
      assert node != null;
      next := Single(node);
      count := 1;
      min := newMin;
    }

    method ToSmaller(newMin: int, newMax: int)
      requires Ok() && count > 1 && liveNodes > 1 && (newMin > min || newMax < min + count - 1)
      requires newMin == NewMin(min, count, Slots(), null) && newMax == NewMax(min, Slots(), null)
      modifies this
      ensures Ok() && pipes == old(pipes)
      ensures Slots() == Cut(old(Slots()), null) && min == CutMin(old(min), old(Slots()), null)
    {
      LiveVoid(Slots(), null);
      LiveCut(Slots(), null);
      LiveBound(Cut(Slots(), null), null);
      assert newMax - newMin + 1 > 1 && newMin >= min && newMax <= min + count - 1;
      assert newMax - newMin + 1 < count;
      count := newMax - newMin + 1;
      next := Table(next.table[newMin - min..newMin - min + count]);
      min := newMin;
    }
  }

  // The running first and last live characters of the slots visited so far, as kept in
  // struct iter for a table of `n` slots.
  ghost function NewMin<T>(min: int, n: nat, s: seq<T>, z: T): int {
    if Void(s, z) then min + n - 1 else min + First(s, z)
  }

  ghost function NewMax<T>(min: int, s: seq<T>, z: T): int {
    if Void(s, z) then min else min + Last(s, z) - 1
  }

  lemma NewEnds<T>(min: int, n: nat, s: seq<T>, x: T, z: T)
    requires |s| < n
    ensures var s' := s + [x];
            var c := min + |s|;
            && NewMin(min, n, s', z) == (if x != z && c < NewMin(min, n, s, z) then c else NewMin(min, n, s, z))
            && NewMax(min, s', z) == (if x != z && c > NewMax(min, s, z) then c else NewMax(min, s, z))
  {
    var s' := s + [x];
    if x != z {
      assert s'[|s|] == x;
      LastIs(s', z, |s'|);
      if Void(s, z) {
        FirstIs(s', z, |s|);
      } else {
        FirstIs(s', z, First(s, z));
      }
    } else if !Void(s, z) {
      assert s'[First(s, z)] == s[First(s, z)];
      FirstIs(s', z, First(s, z));
      LastIs(s', z, Last(s, z));
    }
  }
}
