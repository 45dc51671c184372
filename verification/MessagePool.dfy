/**
  Any number of message handles at work together: runs of init, copy, move and close
  (ExternalLib/libzmq/src/msg.cpp:89-204, 269-389) over distinct handles.
 */
module MessagePool {
  import opened Message
  import opened Runs

  ghost predicate On(b: Body, c: Content) {
    b.IsLong() && b.content == c
  }

  // How many handles are on content `c`.
  ghost function Count(bs: seq<Body>, c: Content): nat {
    if bs == [] then 0 else (if On(bs[0], c) then 1 else 0) + Count(bs[1..], c)
  }

  lemma {:induction false} CountConcat(a: seq<Body>, b: seq<Body>, c: Content)
    ensures Count(a + b, c) == Count(a, c) + Count(b, c)
    decreases a
  {
    if a == [] {
      assert a + b == b;
    } else {
      CountConcat(a[1..], b, c);
      assert (a + b)[1..] == a[1..] + b;
    }
  }

  lemma CountSet(bs: seq<Body>, i: nat, b: Body, c: Content)
    requires i < |bs|
    ensures Count(bs[i := b], c) == Count(bs, c) - (if On(bs[i], c) then 1 else 0) + (if On(b, c) then 1 else 0)
  {
    var pre, post := bs[..i], bs[i + 1..];
    assert bs == pre + ([bs[i]] + post) && bs[i := b] == pre + ([b] + post);
    CountConcat(pre, [bs[i]] + post, c);
    CountConcat(pre, [b] + post, c);
    assert ([bs[i]] + post)[1..] == post && ([b] + post)[1..] == post;
  }

  lemma {:induction false} CountTwo(bs: seq<Body>, i: nat, j: nat, c: Content)
    requires i < j < |bs| && On(bs[i], c) && On(bs[j], c)
    ensures Count(bs, c) >= 2
  {
    CountSet(bs, i, EMPTY, c);
    CountSet(bs[i := EMPTY], j, EMPTY, c);
  }

  // The two fields of a content.
  datatype Cell = Cell(refcnt: int, frees: nat)
  type Cells = map<Content, Cell>

  ghost function Snap(cs: set<Content>): Cells
    reads cs
  {
    map c | c in cs :: Cell(c.refcnt, c.frees)
  }

  /**
    What every operation keeps.  A content is freed exactly when no handle is on it any more,
    and then once; a shared handle's counter is the number of handles on its content; an
    unshared handle is alone on its content.
   */
  ghost predicate Balanced(bs: seq<Body>, m: Cells) {
    && (forall i :: 0 <= i < |bs| ==> Sound(bs, m, bs[i]))
    && (forall c :: c in m ==> m[c].frees == if Count(bs, c) == 0 then 1 else 0)
  }

  ghost predicate Sound(bs: seq<Body>, m: Cells, b: Body) {
    b.Valid() && (b.IsLong() ==>
      b.content in m && if b.shared then m[b.content].refcnt == Count(bs, b.content) else Count(bs, b.content) == 1)
  }

  lemma CountPos(bs: seq<Body>, i: nat)
    requires i < |bs| && bs[i].IsLong() && bs[i].content != null
    ensures Count(bs, bs[i].content) >= 1
  {
    CountSet(bs, i, EMPTY, bs[i].content);
  }

  // Two handles on one content: both are shared.
  lemma BothShared(bs: seq<Body>, m: Cells, i: nat, j: nat)
    requires Balanced(bs, m) && i < |bs| && j < |bs| && i != j
    requires bs[i].IsLong() && bs[j].IsLong() && bs[i].content == bs[j].content
    ensures bs[i].shared && bs[j].shared && Count(bs, bs[i].content) >= 2
  {
    assert Sound(bs, m, bs[i]) && Sound(bs, m, bs[j]);
    CountTwo(bs, if i < j then i else j, if i < j then j else i, bs[i].content);
  }

  // The content of a closed handle, afterwards.
  ghost predicate Dropped(b: Body, n: int, x: Cell, x': Cell) {
    if n == 1 then x'.frees == x.frees + 1 else x'.frees == x.frees && x'.refcnt == n - 1
  }

  lemma Closing(bs: seq<Body>, i: nat, m: Cells, m': Cells)
    requires i < |bs| && Balanced(bs, m) && m'.Keys == m.Keys
    requires bs[i].IsLong() ==> Dropped(bs[i], Count(bs, bs[i].content), m[bs[i].content], m'[bs[i].content])
    requires forall c :: c in m && !On(bs[i], c) ==> m'[c] == m[c]
    ensures Balanced(bs[i := bs[i].(kind := Closed)], m')
  {
    var b, bs' := bs[i], bs[i := bs[i].(kind := Closed)];
    forall c ensures Count(bs', c) == Count(bs, c) - if On(b, c) then 1 else 0 {
      CountSet(bs, i, b.(kind := Closed), c);
    }
    if b.IsLong() { CountPos(bs, i); }
    forall j | 0 <= j < |bs'| ensures Sound(bs', m', bs'[j]) {
      assert Sound(bs, m, bs[j]);
      if j != i && bs[j].IsLong() && On(b, bs[j].content) { BothShared(bs, m, i, j); }
    }
  }

  // A handle that was on nothing takes a fresh content, or none.
  lemma Opening(bs: seq<Body>, i: nat, b: Body, m: Cells, m': Cells)
    requires i < |bs| && Balanced(bs, m) && !bs[i].IsLong() && b.Valid() && (b.IsLong() ==> !b.shared)
    requires if b.IsLong() then
               b.content !in m && b.content in m' && m' == m[b.content := m'[b.content]] && m'[b.content].frees == 0
             else m' == m
    ensures Balanced(bs[i := b], m')
  {
    var bs' := bs[i := b];
    forall c ensures Count(bs', c) == Count(bs, c) + if On(b, c) then 1 else 0 { CountSet(bs, i, b, c); }
    if b.IsLong() { Unseen(bs, m, b.content); }
    forall j | 0 <= j < |bs'| ensures Sound(bs', m', bs'[j]) {
      assert Sound(bs, m, bs[j]);
    }
  }

  lemma {:induction false} Unseen(bs: seq<Body>, m: Cells, c: Content)
    requires c !in m && forall i :: 0 <= i < |bs| ==> (bs[i].IsLong() ==> bs[i].content in m)
    ensures Count(bs, c) == 0
    decreases bs
  {
    if bs != [] { Unseen(bs[1..], m, c); }
  }

  // Two handles are made shared copies of one.
  lemma Sharing(bs: seq<Body>, d: nat, s: nat, m: Cells, m': Cells)
    requires d < |bs| && s < |bs| && d != s && Balanced(bs, m) && bs[s].IsLong() && !bs[d].IsLong()
    requires m' == m[bs[s].content := Cell(Count(bs, bs[s].content) + 1, m[bs[s].content].frees)]
    ensures var b := bs[s].(shared := true); Balanced(bs[s := b][d := b], m')
  {
    var b := bs[s].(shared := true);
    var bs1 := bs[s := b];
    var bs2 := bs1[d := b];
    forall c ensures Count(bs2, c) == Count(bs, c) + if On(b, c) then 1 else 0 {
      CountSet(bs, s, b, c);
      CountSet(bs1, d, b, c);
    }
    assert Sound(bs, m, bs[s]);
    CountPos(bs, s);
    forall j | 0 <= j < |bs2| ensures Sound(bs2, m', bs2[j]) {
      assert Sound(bs, m, bs[j]);
      if j != s && j != d && bs[j].IsLong() && bs[j].content == b.content { BothShared(bs, m, s, j); }
    }
  }

  // A content changes hands.
  lemma Moving(bs: seq<Body>, d: nat, s: nat, m: Cells)
    requires d < |bs| && s < |bs| && d != s && Balanced(bs, m) && !bs[d].IsLong()
    ensures Balanced(bs[d := bs[s]][s := EMPTY], m)
  {
    var bs1 := bs[d := bs[s]];
    var bs2 := bs1[s := EMPTY];
    forall c ensures Count(bs2, c) == Count(bs, c) {
      CountSet(bs, d, bs[s], c);
      CountSet(bs1, s, EMPTY, c);
    }
    forall j | 0 <= j < |bs2| ensures Sound(bs2, m, bs2[j]) {
      assert Sound(bs, m, bs[j]) && Sound(bs, m, bs[s]);
    }
  }

  // Once every handle is closed, every content has been freed exactly once.
  lemma AllClosed(bs: seq<Body>, m: Cells)
    requires Balanced(bs, m) && forall i :: 0 <= i < |bs| ==> !bs[i].IsLong()
    ensures forall c :: c in m ==> m[c].frees == 1
  {
    forall c | c in m ensures m[c].frees == 1 {
      Unseen(bs, map[], c);
    }
  }

  datatype Op = DoInitSize(i: nat, size: nat) | DoInitData(i: nat, hasFfn: bool) | DoInitExternalStorage(i: nat)
              | DoCopy(d: nat, s: nat) | DoMove(d: nat, s: nat) | DoClose(i: nat)

  // What the handles hold, and the contents there ever were.
  datatype State = State(bs: seq<Body>, m: Cells)

  // The caller's side: init only of a handle that holds no content, copy and move between two.
  predicate Permits(bs: seq<Body>, op: Op) {
    match op
    case DoInitSize(i, _) => i < |bs| && !bs[i].IsLong()
    case DoInitData(i, _) => i < |bs| && !bs[i].IsLong()
    case DoInitExternalStorage(i) => i < |bs| && !bs[i].IsLong()
    case DoCopy(d, s) => d < |bs| && s < |bs| && d != s
    case DoMove(d, s) => d < |bs| && s < |bs| && d != s
    case DoClose(i) => i < |bs|
  }

  ghost predicate Moves(s: State, op: Op, t: State)
    requires Permits(s.bs, op)
  {
    match op
    case DoInitSize(i, size) => if size <= MAX_VSM_SIZE then Same(s, s.bs[i := EMPTY], t) else Opened(s, i, Lmsg, t)
    case DoInitData(i, hasFfn) =>
      if !hasFfn then Same(s, s.bs[i := Body(Cmsg, false, false, null)], t) else Opened(s, i, Lmsg, t)
    case DoInitExternalStorage(i) => Opened(s, i, Zclmsg, t)
    case DoCopy(d, src) =>
      var b := if s.bs[src].IsLong() then s.bs[src].(shared := true) else s.bs[src];
      Same(s, if Void(s, d, src) then s.bs else s.bs[src := b][d := b], t)
    case DoMove(d, src) => Same(s, if Void(s, d, src) then s.bs else s.bs[d := s.bs[src]][src := EMPTY], t)
    case DoClose(i) => Same(s, s.bs[i := s.bs[i].(kind := Closed)], t)
  }

  // One of the two is closed: an error, and nothing happens.
  predicate Void(s: State, d: nat, src: nat)
    requires d < |s.bs| && src < |s.bs|
  {
    s.bs[src].kind == Closed || s.bs[d].kind == Closed
  }

  ghost predicate Same(s: State, bs: seq<Body>, t: State) {
    t.bs == bs && t.m.Keys == s.m.Keys
  }

  // The handle is on a content that has never been there.
  ghost predicate Opened(s: State, i: nat, kind: Kind, t: State)
    requires i < |s.bs|
  {
    && |t.bs| == |s.bs| && t.bs[i].content != null && t.bs == s.bs[i := Body(kind, false, false, t.bs[i].content)]
    && t.bs[i].content !in s.m && t.m.Keys == s.m.Keys + {t.bs[i].content}
  }

  // An operation that is not permitted when its turn comes is skipped.
  ghost predicate Steps(s: State, op: Op, t: State) {
    if Permits(s.bs, op) then Moves(s, op, t) else t == s
  }

  class Pool {
    const handles: seq<Msg>
    // Every content that ever had a handle.
    ghost var contents: set<Content>

    ghost predicate Valid()
      reads this, handles, contents
    {
      && (forall i, j :: 0 <= i < j < |handles| ==> handles[i] != handles[j])
      && Balanced(Bodies(), Snap(contents))
    }

    ghost function Bodies(): (bs: seq<Body>)
      reads handles
      ensures |bs| == |handles|
    {
      seq(|handles|, i requires 0 <= i < |handles| reads handles => handles[i].b)
    }

    constructor (hs: seq<Msg>)
      requires forall i, j :: 0 <= i < j < |hs| ==> hs[i] != hs[j]
      requires forall i :: 0 <= i < |hs| ==> hs[i].b == EMPTY
      ensures handles == hs && Valid() && contents == {}
    {
      handles := hs;
      contents := {};
    }

    // A handle is initialised when it is on nothing: fresh, closed or empty.
    method InitSize(i: nat, size: nat)
      requires Valid() && i < |handles| && !Bodies()[i].IsLong()
      modifies this`contents, handles
      ensures Valid() && forall c :: c in contents ==> c in old(contents) || fresh(c)
      ensures Bodies() == old(Bodies())[i := Bodies()[i]]
      ensures Bodies()[i].Valid() && Bodies()[i].Held() !! old(contents)
      ensures contents == old(contents) + Bodies()[i].Held()
      ensures Bodies()[i] == if size <= MAX_VSM_SIZE then EMPTY else Body(Lmsg, false, false, Bodies()[i].content)
    {
      ghost var bs, m := Bodies(), Snap(contents);
      handles[i].InitSize(size);
      Track(i, bs, m);
      assert Bodies() == bs[i := handles[i].b];
    }

    method InitData(i: nat, hasFfn: bool)
      requires Valid() && i < |handles| && !Bodies()[i].IsLong()
      modifies this`contents, handles
      ensures Valid() && forall c :: c in contents ==> c in old(contents) || fresh(c)
      ensures Bodies() == old(Bodies())[i := Bodies()[i]]
      ensures Bodies()[i].Valid() && Bodies()[i].Held() !! old(contents)
      ensures contents == old(contents) + Bodies()[i].Held()
      ensures Bodies()[i] == if hasFfn then Body(Lmsg, false, false, Bodies()[i].content)
                             else Body(Cmsg, false, false, null)
    {
      ghost var bs, m := Bodies(), Snap(contents);
      handles[i].InitData(hasFfn);
      Track(i, bs, m);
      assert Bodies() == bs[i := handles[i].b];
    }

    // External storage brings a content of its own, used for the first time.
    method InitExternalStorage(i: nat, c: Content)
      requires Valid() && i < |handles| && !Bodies()[i].IsLong() && c !in contents && c.frees == 0
      modifies this`contents, handles, c
      ensures Valid() && Bodies()[i] == Body(Zclmsg, false, false, c) && contents == old(contents) + {c}
      ensures Bodies() == old(Bodies())[i := Bodies()[i]]
    {
      ghost var bs, m := Bodies(), Snap(contents);
      handles[i].InitExternalStorage(c);
      Track(i, bs, m);
      assert Bodies() == bs[i := handles[i].b];
    }

    // A new content enters the books.
    ghost method Track(i: nat, bs: seq<Body>, m: Cells)
      requires i < |handles| && |bs| == |handles| && Balanced(bs, m) && !bs[i].IsLong() && m == Snap(contents)
      requires Bodies() == bs[i := handles[i].b] && Counts(handles[i].b, 1) && !handles[i].b.shared
      requires handles[i].b.Held() !! contents
      requires forall i, j :: 0 <= i < j < |handles| ==> handles[i] != handles[j]
      modifies this`contents
      ensures Valid() && contents == old(contents) + handles[i].b.Held()
    {
      contents := contents + handles[i].b.Held();
      Opening(bs, i, handles[i].b, m, Snap(contents));
    }

    // Closing the last handle on a content frees it; closing twice is an error.
    method Close(i: nat) returns (rc: int)
      requires Valid() && i < |handles|
      modifies handles, contents
      ensures Valid()
      ensures Bodies() == old(Bodies())[i := old(Bodies())[i].(kind := Closed)]
      ensures rc == if old(Bodies())[i].kind == Closed then -1 else 0
    {
      ghost var bs, m := Bodies(), Snap(contents);
      ghost var b := bs[i];
      assert Sound(bs, m, b);
      if b.IsLong() { CountPos(bs, i); }
      rc := handles[i].Close(if b.IsLong() then Count(bs, b.content) else 0);
      Closing(bs, i, m, Snap(contents));
      assert Bodies() == bs[i := b.(kind := Closed)];
    }

    // The source checks its argument, closes the destination, then shares the content.
    method Copy(d: nat, s: nat) returns (rc: int)
      requires Valid() && d < |handles| && s < |handles| && d != s
      modifies handles, contents
      ensures Valid()
      ensures rc == if old(Bodies())[s].kind == Closed || old(Bodies())[d].kind == Closed then -1 else 0
      ensures rc == -1 ==> Bodies() == old(Bodies())
      ensures rc == 0 ==>
                var b := if old(Bodies())[s].IsLong() then old(Bodies())[s].(shared := true) else old(Bodies())[s];
                Bodies() == old(Bodies())[s := b][d := b]
    {
      if handles[s].b.kind == Closed {
        return -1;
      }
      ghost var bs0 := Bodies();
      rc := Close(d);
      if rc < 0 {
        assert Bodies() == bs0;
        return;
      }
      Share(d, s);
      ghost var b := if bs0[s].IsLong() then bs0[s].(shared := true) else bs0[s];
      assert Bodies() == bs0[s := b][d := b];
    }

    method Share(d: nat, s: nat)
      requires Valid() && d < |handles| && s < |handles| && d != s && !Bodies()[d].IsLong()
      modifies handles, contents
      ensures Valid()
      ensures var b := if old(Bodies())[s].IsLong() then old(Bodies())[s].(shared := true) else old(Bodies())[s];
              Bodies() == old(Bodies())[s := b][d := b]
    {
      if handles[s].b.IsLong() {
        ShareLong(d, s);
      } else {
        ghost var bs, m := Bodies(), Snap(contents);
        assert Sound(bs, m, bs[s]);
        handles[d].b := handles[s].b;
        assert bs[s := bs[s]] == bs && Bodies() == bs[d := bs[s]] && Snap(contents) == m;
        Opening(bs, d, bs[s], m, m);
      }
    }

    // A shared content gets one more reference; an unshared one becomes shared by two.
    method ShareLong(d: nat, s: nat)
      requires Valid() && d < |handles| && s < |handles| && d != s && !Bodies()[d].IsLong() && Bodies()[s].IsLong()
      modifies handles, contents
      ensures Valid()
      ensures var b := old(Bodies())[s].(shared := true); Bodies() == old(Bodies())[s := b][d := b]
    {
      ghost var bs, m := Bodies(), Snap(contents);
      assert Sound(bs, m, bs[s]);
      var src := handles[s];
      if src.b.shared {
        src.b.content.refcnt := src.b.content.refcnt + 1;
      } else {
        src.b := src.b.(shared := true);
        src.b.content.refcnt := 2;
      }
      handles[d].b := src.b;
      Sharing(bs, d, s, m, Snap(contents));
      assert Bodies() == bs[s := src.b][d := src.b];
    }

    method Move(d: nat, s: nat) returns (rc: int)
      requires Valid() && d < |handles| && s < |handles| && d != s
      modifies handles, contents
      ensures Valid()
      ensures rc == if old(Bodies())[s].kind == Closed || old(Bodies())[d].kind == Closed then -1 else 0
      ensures rc == -1 ==> Bodies() == old(Bodies())
      ensures rc == 0 ==> Bodies() == old(Bodies())[d := old(Bodies())[s]][s := EMPTY]
    {
      if handles[s].b.kind == Closed {
        return -1;
      }
      ghost var bs0 := Bodies();
      rc := Close(d);
      if rc < 0 {
        assert Bodies() == bs0;
        return;
      }
      ghost var bs, m := Bodies(), Snap(contents);
      handles[d].b := handles[s].b;
      handles[s].Init();
      Moving(bs, d, s, m);
      assert Bodies() == bs[d := bs[s]][s := EMPTY] == bs0[d := bs0[s]][s := EMPTY];
    }

    ghost function Now(): State
      reads this, handles, contents
    {
      State(Bodies(), Snap(contents))
    }

    // Any run is one of the machine above, and after every operation the books balance.
    method Run(ops: seq<Op>) returns (ghost path: seq<State>)
      requires Valid()
      modifies this`contents, handles, contents
      ensures Valid() && forall c :: c in contents ==> c in old(contents) || fresh(c)
      ensures IsRun(Steps, path, ops) && path[0] == old(Now()) && path[|ops|] == Now()
      ensures forall i :: 0 <= i <= |ops| ==> Balanced(path[i].bs, path[i].m)
    {
      hide Moves, IsRun, Balanced;
      path := [Now()];
      RunNone(Steps, Now(), ops);
      for i := 0 to |ops|
        invariant |path| == i + 1 && IsRun(Steps, path, ops[..i]) && path[0] == old(Now()) && path[i] == Now()
        invariant Valid() && forall c :: c in contents ==> c in old(contents) || fresh(c)
        invariant forall k :: 0 <= k <= i ==> Balanced(path[k].bs, path[k].m)
      {
        var ok := Permitted(ops[i]);
        if ok {
          Step(ops[i]);
        }
        RunOn(Steps, path, ops, i, Now());
        path := path + [Now()];
      }
      assert ops[..|ops|] == ops;
    }

    method Step(op: Op)
      requires Valid() && Permits(Bodies(), op)
      modifies this`contents, handles, contents
      ensures Valid() && forall c :: c in contents ==> c in old(contents) || fresh(c)
      ensures Moves(old(Now()), op, Now())
    {
      hide Balanced;
      match op
      case DoInitSize(i, size) => InitSize(i, size);
      case DoInitData(i, hasFfn) => InitData(i, hasFfn);
      case DoInitExternalStorage(i) =>
        var c := new Content();
        InitExternalStorage(i, c);
      case DoCopy(d, s) => var _ := Copy(d, s);
      case DoMove(d, s) => var _ := Move(d, s);
      case DoClose(i) => var _ := Close(i);
    }

    method Permitted(op: Op) returns (r: bool)
      requires Valid()
      ensures r == Permits(Bodies(), op)
    {
      match op
      case DoInitSize(i, _) => r := i < |handles| && !handles[i].b.IsLong();
      case DoInitData(i, _) => r := i < |handles| && !handles[i].b.IsLong();
      case DoInitExternalStorage(i) => r := i < |handles| && !handles[i].b.IsLong();
      case DoCopy(d, s) => r := d < |handles| && s < |handles| && d != s;
      case DoMove(d, s) => r := d < |handles| && s < |handles| && d != s;
      case DoClose(i) => r := i < |handles|;
    }
  }
}
