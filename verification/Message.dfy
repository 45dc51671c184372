/**
  Message handles and the contents they share (zmq::msg_t, ExternalLib/libzmq/src/msg.cpp).
  A small message lives in its handle; a long one is a reference-counted content outside it.
  The counter is meaningless until a handle carries the `shared` flag.
 */
module Message {

  // `Closed` is the invalid type 0 that close leaves behind.
  datatype Kind = Closed | Vsm | Lmsg | Zclmsg | Cmsg | Delimiter | Join | Leave

  // zmq::msg_t::content_t.  `frees` counts how often it was given back: freed, or handed to
  // the free function of its external storage.
  class Content {
    var refcnt: int
    var frees: nat

    constructor ()
      ensures frees == 0 && refcnt == 0
    {
      refcnt, frees := 0, 0;
    }

    // refcnt->sub: false when the counter has reached zero.
    method Sub(n: nat) returns (left: bool)
      modifies this`refcnt
      ensures refcnt == old(refcnt) - n && left == (refcnt != 0)
    {
      refcnt := refcnt - n;
      left := refcnt != 0;
    }
  }

  // The struct msg_t, which is copied as a whole.
  datatype Body = Body(kind: Kind, more: bool, shared: bool, content: Content?) {
    predicate IsLong() {
      kind == Lmsg || kind == Zclmsg
    }

    predicate Valid() {
      IsLong() ==> content != null
    }

    // The content this handle is on.
    ghost function Held(): set<Content> {
      if IsLong() && content != null then {content} else {}
    }
  }

  const EMPTY := Body(Vsm, false, false, null)
  const MAX_VSM_SIZE := 33

  // `b` is one of exactly `h` live handles on its content.
  ghost predicate Counts(b: Body, h: int)
    reads b.Held()
  {
    b.Valid() && (b.IsLong() ==> b.content.frees == 0 && h >= 1 && if b.shared then b.content.refcnt == h else h == 1)
  }

  // `h` handles are left on the content of `b`: it is alive with the right count, or freed once.
  ghost predicate Left(b: Body, h: int)
    reads b.Held()
  {
    b.Valid() && (b.IsLong() ==> if h == 0 then b.content.frees == 1 else Counts(b, h))
  }

  class Msg {
    var b: Body

    constructor ()
      ensures b == EMPTY
    {
      b := EMPTY;
    }

    method Init()
      modifies this
      ensures b == EMPTY
    {
      b := EMPTY;
    }

    method InitSize(size: nat)
      modifies this
      ensures b.Valid() && !b.more && !b.shared
      ensures if size <= MAX_VSM_SIZE then b == EMPTY
              else b.kind == Lmsg && fresh(b.content) && Counts(b, 1)
    {
      if size <= MAX_VSM_SIZE {
        b := EMPTY;
      } else {
        var c := new Content();
        b := Body(Lmsg, false, false, c);
      }
    }

    method InitData(hasFfn: bool)
      modifies this
      ensures b.Valid() && !b.more && !b.shared
      ensures if hasFfn then b.kind == Lmsg && fresh(b.content) && Counts(b, 1) else b.kind == Cmsg && b.content == null
    {
      if !hasFfn {
        b := Body(Cmsg, false, false, null);
      } else {
        var c := new Content();
        b := Body(Lmsg, false, false, c);
      }
    }

    method InitExternalStorage(content: Content)
      requires content.frees == 0
      modifies this, content`refcnt
      ensures b == Body(Zclmsg, false, false, content) && Counts(b, 1) && content.refcnt == 0
    {
      b := Body(Zclmsg, false, false, content);
      content.refcnt := 0;
    }

    // `h` live handles before, one fewer after; the last one frees the content.
    method Close(ghost h: int) returns (rc: int)
      requires Counts(b, h)
      modifies this, b.Held()
      ensures old(b).kind == Closed ==> rc == -1 && b == old(b)
      ensures old(b).kind != Closed ==> rc == 0 && b == old(b).(kind := Closed)
      ensures old(b).IsLong() ==> Left(old(b), h - 1)
    {
      if b.kind == Closed {
        return -1;
      }
      if b.kind == Lmsg {
        var dead := !b.shared;
        if b.shared {
          var left := b.content.Sub(1);
          dead := !left;
        }
        if dead {
          b.content.frees := b.content.frees + 1;
        }
      }
      if b.kind == Zclmsg {
        var dead := !b.shared;
        if b.shared {
          var left := b.content.Sub(1);
          dead := !left;
        }
        if dead {
          b.content.frees := b.content.frees + 1;
        }
      }
      b := b.(kind := Closed);
      rc := 0;
    }

    // Add references for `refs` more copies of this handle.
    method AddRefs(refs: nat, ghost h: int)
      requires Counts(b, h)
      modifies this, b.Held()
      ensures Counts(b, h + refs)
      ensures b == if refs > 0 && old(b).IsLong() then old(b).(shared := true) else old(b)
    {
      if refs == 0 {
        return;
      }
      if b.kind == Lmsg || b.kind == Zclmsg {
        if b.shared {
          b.content.refcnt := b.content.refcnt + refs;
        } else {
          b.content.refcnt := refs + 1;
          b := b.(shared := true);
        }
      }
    }

    // Drop `refs` of the `h` references.
    method RmRefs(refs: nat, ghost h: int) returns (alive: bool)
      requires Counts(b, h) && (b.IsLong() ==> refs <= h)
      modifies this, b.Held()
      ensures old(b).IsLong() ==> Left(old(b), h - refs) && (refs > 0 ==> (alive <==> h - refs > 0))
      ensures refs == 0 ==> alive
      ensures refs > 0 && !old(b).IsLong() ==> !alive
      ensures b == if refs > 0 && !(old(b).IsLong() && old(b).shared) then old(b).(kind := Closed) else old(b)
    {
      if refs == 0 {
        return true;
      }
      if (b.kind != Zclmsg && b.kind != Lmsg) || !b.shared {
        var _ := Close(h);
        return false;
      }
      var left := b.content.Sub(refs);
      if !left {
        b.content.frees := b.content.frees + 1;
        return false;
      }
      return true;
    }
  }
}
