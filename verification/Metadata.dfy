/**
  The property list of the ZMTP handshake (ExternalLib/libzmq/src/mechanism.cpp:100-415, the
  metadata rule of the grammar of ZeroMQ RFC 23): a name with a length of one byte, then a value
  with a length of four.
 */
module Metadata {
  import opened Wire

  type Text = seq<Byte>

  datatype Property = Property(name: Text, value: Text)

  function Ascii(s: string): Text {
    seq(|s|, i requires 0 <= i < |s| => s[i] as int % 256)
  }

  const SOCKET_TYPE_NAME := Ascii("Socket-Type")
  const IDENTITY_NAME := Ascii("Identity")

  datatype SocketType = Pair | Pub | Sub | Req | Rep | Dealer | Router | Pull | Push | Xpub | Xsub | Stream {
    function Name(): Text {
      Ascii(match this
            case Pair => "PAIR"
            case Pub => "PUB"
            case Sub => "SUB"
            case Req => "REQ"
            case Rep => "REP"
            case Dealer => "DEALER"
            case Router => "ROUTER"
            case Pull => "PULL"
            case Push => "PUSH"
            case Xpub => "XPUB"
            case Xsub => "XSUB"
            case Stream => "STREAM")
    }

    // check_socket_type
    predicate Accepts(type_: Text) {
      match this
      case Req => type_ == Rep.Name() || type_ == Router.Name()
      case Rep => type_ == Req.Name() || type_ == Dealer.Name()
      case Dealer => type_ == Rep.Name() || type_ == Dealer.Name() || type_ == Router.Name()
      case Router => type_ == Req.Name() || type_ == Dealer.Name() || type_ == Router.Name()
      case Push => type_ == Pull.Name()
      case Pull => type_ == Push.Name()
      case Pub => type_ == Sub.Name() || type_ == Xsub.Name()
      case Sub => type_ == Pub.Name() || type_ == Xpub.Name()
      case Xpub => type_ == Sub.Name() || type_ == Xsub.Name()
      case Xsub => type_ == Pub.Name() || type_ == Xpub.Name()
      case Pair => type_ == Pair.Name()
      case Stream => false
    }
  }

  // The names tell the types apart.
  lemma NamesDiffer(a: SocketType, b: SocketType)
    ensures a.Name() == b.Name() ==> a == b
  {
    var x, y := a.Name(), b.Name();
    if x == y {
      assert x[0] == y[0] && x[1] == y[1] && x[2] == y[2] && |x| == |y|;
    }
  }

  // The names on the wire.
  lemma ShortTypesSpelled()
    ensures Pair.Name() == [80, 65, 73, 82]
    ensures Pub.Name() == [80, 85, 66]
    ensures Sub.Name() == [83, 85, 66]
    ensures Req.Name() == [82, 69, 81]
    ensures Rep.Name() == [82, 69, 80]
  {
  }

  lemma LongTypesSpelled()
    ensures Dealer.Name() == [68, 69, 65, 76, 69, 82]
    ensures Router.Name() == [82, 79, 85, 84, 69, 82]
    ensures Pull.Name() == [80, 85, 76, 76]
    ensures Push.Name() == [80, 85, 83, 72]
    ensures Xpub.Name() == [88, 80, 85, 66]
    ensures Xsub.Name() == [88, 83, 85, 66]
    ensures Stream.Name() == [83, 84, 82, 69, 65, 77]
  {
  }

  // The table of check_socket_type, on types instead of names.
  predicate Suits(a: SocketType, b: SocketType) {
    match a
    case Req => b == Rep || b == Router
    case Rep => b == Req || b == Dealer
    case Dealer => b == Rep || b == Dealer || b == Router
    case Router => b == Req || b == Dealer || b == Router
    case Push => b == Pull
    case Pull => b == Push
    case Pub => b == Sub || b == Xsub
    case Sub => b == Pub || b == Xpub
    case Xpub => b == Sub || b == Xsub
    case Xsub => b == Pub || b == Xpub
    case Pair => b == Pair
    case Stream => false
  }

  lemma AcceptsSuits(a: SocketType, b: SocketType)
    ensures a.Accepts(b.Name()) <==> Suits(a, b)
  {
    hide Ascii, SocketType.Name;
    forall x: SocketType ensures b.Name() == x.Name() ==> b == x {
      NamesDiffer(b, x);
    }
  }

  // Both ends of a handshake decide alike.
  lemma HandshakeSymmetric(a: SocketType, b: SocketType)
    ensures a.Accepts(b.Name()) <==> b.Accepts(a.Name())
  {
    hide Ascii, SocketType.Name, SocketType.Accepts;
    AcceptsSuits(a, b);
    AcceptsSuits(b, a);
  }

  // ---------------------------------------------------------------- writing

  function Bytes(p: Property): (r: seq<Byte>)
    requires |p.name| <= 255
    ensures |r| == PropertyLen(|p.name|, |p.value|)
  {
    [|p.name|] + p.name + Put(|p.value|, 4) + p.value
  }

  function PropertyLen(name: nat, value: nat): nat {
    1 + name + 4 + value
  }

  // The lengths fit their fields.
  ghost predicate Fits(p: Property) {
    |p.name| <= 255 && |p.value| <= 0xFFFF_FFFF
  }

  ghost predicate AllFit(ps: seq<Property>) {
    forall i :: 0 <= i < |ps| ==> Fits(ps[i])
  }

  ghost function Serialised(ps: seq<Property>): seq<Byte>
    requires AllFit(ps)
  {
    if ps == [] then [] else Bytes(ps[0]) + Serialised(ps[1..])
  }

  lemma {:induction false} SerialisedConcat(a: seq<Property>, b: seq<Property>)
    requires AllFit(a) && AllFit(b)
    ensures Serialised(a + b) == Serialised(a) + Serialised(b)
  {
    hide Bytes;
    if a == [] {
      assert a + b == b;
    } else {
      SerialisedConcat(a[1..], b);
      assert (a + b)[0] == a[0] && (a + b)[1..] == a[1..] + b;
    }
  }

  lemma SerialisedOne(ps: seq<Property>, p: Property)
    requires AllFit(ps) && Fits(p)
    ensures Serialised(ps + [p]) == Serialised(ps) + Bytes(p)
  {
    SerialisedConcat(ps, [p]);
    var one := [p];
    assert one[1..] == [];
  }

  // A string as strlen sees it.
  function CStr(s: Text): Text {
    if s == [] || s[0] == 0 then [] else [s[0]] + CStr(s[1..])
  }

  // It ends at the first zero.
  lemma {:induction false} CStrPrefix(s: Text)
    ensures var n := |CStr(s)|;
            n <= |s| && CStr(s) == s[..n] && (forall i :: 0 <= i < n ==> s[i] != 0) && (n < |s| ==> s[n] == 0)
  {
    if s != [] && s[0] != 0 {
      CStrPrefix(s[1..]);
      assert forall i :: 1 <= i < |s| ==> s[i] == s[1..][i - 1];
    }
  }

  // `appMetadata` is a std::map: the order is that of its keys.
  datatype Options = Options(type_: SocketType, routingId: Text, recvRoutingId: bool, appMetadata: seq<Property>) {
    predicate HasIdentity() {
      type_ == Req || type_ == Dealer || type_ == Router
    }
  }

  function AppProperties(ps: seq<Property>): seq<Property> {
    seq(|ps|, i requires 0 <= i < |ps| => Property(CStr(ps[i].name), CStr(ps[i].value)))
  }

  // The properties a socket announces.
  function Basic(o: Options): seq<Property> {
    OwnProperties(o) + AppProperties(o.appMetadata)
  }

  function OwnProperties(o: Options): seq<Property> {
    [Property(SOCKET_TYPE_NAME, o.type_.Name())]
    + if o.HasIdentity() then [Property(IDENTITY_NAME, o.routingId)] else []
  }

  // What the source asserts of the properties it writes.
  ghost predicate Announceable(o: Options) {
    AllFit(Basic(o)) && forall i :: 0 <= i < |Basic(o)| ==> |Basic(o)[i].value| <= 0x7FFF_FFFF
  }

  method BasicPropertiesLen(o: Options) returns (n: nat)
    requires AllFit(Basic(o))
    ensures n == |Serialised(Basic(o))|
  {
    hide Ascii, SocketType.Name, Serialised;
    BasicParts(o);
    var meta := AppLen(o.appMetadata);
    n := PropertyLen(|SOCKET_TYPE_NAME|, |o.type_.Name()|) + meta
         + if o.HasIdentity() then PropertyLen(|IDENTITY_NAME|, |o.routingId|) else 0;
  }

  lemma BasicParts(o: Options)
    requires AllFit(Basic(o))
    ensures AllFit(AppProperties(o.appMetadata))
    ensures |Serialised(Basic(o))| ==
            PropertyLen(|SOCKET_TYPE_NAME|, |o.type_.Name()|) + |Serialised(AppProperties(o.appMetadata))|
            + if o.HasIdentity() then PropertyLen(|IDENTITY_NAME|, |o.routingId|) else 0
  {
    hide Ascii, SocketType.Name, AppProperties, Serialised;
    AllFitConcat(OwnProperties(o), AppProperties(o.appMetadata));
    SerialisedConcat(OwnProperties(o), AppProperties(o.appMetadata));
    SerialisedFew(OwnProperties(o));
  }

  lemma AllFitConcat(a: seq<Property>, b: seq<Property>)
    requires AllFit(a + b)
    ensures AllFit(a) && AllFit(b)
  {
    assert forall i :: 0 <= i < |a| ==> a[i] == (a + b)[i];
    assert forall i :: 0 <= i < |b| ==> b[i] == (a + b)[|a| + i];
  }

  lemma SerialisedFew(ps: seq<Property>)
    requires AllFit(ps) && (|ps| == 1 || |ps| == 2)
    ensures |Serialised(ps)| == PropertyLen(|ps[0].name|, |ps[0].value|)
            + if |ps| == 2 then PropertyLen(|ps[1].name|, |ps[1].value|) else 0
  {
    assert |ps| == 2 ==> ps[1..][0] == ps[1] && ps[1..][1..] == [];
  }

  method AppLen(ps: seq<Property>) returns (n: nat)
    requires AllFit(AppProperties(ps))
    ensures n == |Serialised(AppProperties(ps))|
  {
    hide Bytes;
    ghost var app := AppProperties(ps);
    n := 0;
    for i := 0 to |ps|
      invariant AllFit(app[..i]) && n == |Serialised(app[..i])|
    {
      assert app[..i + 1] == app[..i] + [app[i]];
      SerialisedOne(app[..i], app[i]);
      n := n + PropertyLen(|CStr(ps[i].name)|, |CStr(ps[i].value)|);
    }
    assert app[..|ps|] == app;
  }

  // Never beyond its capacity.
  method AddProperty(buf: array<Byte>, at: nat, capacity: nat, p: Property) returns (n: nat)
    requires at + capacity <= buf.Length && Fits(p) && |p.value| <= 0x7FFF_FFFF && |Bytes(p)| <= capacity
    modifies buf
    ensures n == |Bytes(p)| && buf[..] == Overlaid(old(buf[..]), at, Bytes(p))
  {
    hide Overlaid;
    ghost var s, name, len := buf[..], [|p.name|] + p.name, Put(|p.value|, 4);
    n := PropertyLen(|p.name|, |p.value|);
    CopyTo(buf, at, [|p.name|]);
    CopyTo(buf, at + 1, p.name);
    OverlaidTwice(s, at, [|p.name|], p.name);
    PutUint32(buf, at + 1 + |p.name|, |p.value|);
    OverlaidTwice(s, at, name, len);
    CopyTo(buf, at + 5 + |p.name|, p.value);
    OverlaidTwice(s, at, name + len, p.value);
  }

  // The first `k` properties have been written, `n` bytes, and nothing else.
  ghost predicate Written(buf: seq<Byte>, was: seq<Byte>, at: nat, n: nat, ps: seq<Property>, k: nat)
    requires AllFit(ps)
  {
    k <= |ps| && n == |Serialised(ps[..k])| && at + n <= |was| && buf == Overlaid(was, at, Serialised(ps[..k]))
  }

  method Append(buf: array<Byte>, at: nat, capacity: nat, n: nat, p: Property,
                ghost was: seq<Byte>, ghost ps: seq<Property>, ghost k: nat)
    returns (n': nat)
    requires AllFit(ps) && at + capacity <= buf.Length == |was| && |Serialised(ps)| <= capacity
    requires k < |ps| && p == ps[k] && |p.value| <= 0x7FFF_FFFF && Written(buf[..], was, at, n, ps, k)
    modifies buf
    ensures Written(buf[..], was, at, n', ps, k + 1)
  {
    hide Overlaid, Bytes, Serialised;
    assert ps[..k + 1] == ps[..k] + [p] && ps == ps[..k + 1] + ps[k + 1..];
    SerialisedOne(ps[..k], p);
    SerialisedConcat(ps[..k + 1], ps[k + 1..]);
    OverlaidTwice(was, at, Serialised(ps[..k]), Bytes(p));
    var len := AddProperty(buf, at + n, capacity - n, p);
    n' := n + len;
  }

  // Exactly as many bytes as BasicPropertiesLen says.
  method AddBasicProperties(buf: array<Byte>, at: nat, capacity: nat, o: Options) returns (n: nat)
    requires at + capacity <= buf.Length && Announceable(o) && |Serialised(Basic(o))| <= capacity
    modifies buf
    ensures n == |Serialised(Basic(o))| && buf[..] == Overlaid(old(buf[..]), at, Serialised(Basic(o)))
  {
    hide Basic, Written, Serialised, Overlaid;
    ghost var was, all, k := buf[..], Basic(o), if o.HasIdentity() then 2 else 1;
    BasicAt(o);
    WrittenNone(was, at, all);
    n := Append(buf, at, capacity, 0, Property(SOCKET_TYPE_NAME, o.type_.Name()), was, all, 0);
    if o.HasIdentity() {
      n := Append(buf, at, capacity, n, Property(IDENTITY_NAME, o.routingId), was, all, 1);
    }
    for i := 0 to |o.appMetadata|
      invariant Written(buf[..], was, at, n, all, k + i)
    {
      var p := Property(CStr(o.appMetadata[i].name), CStr(o.appMetadata[i].value));
      n := Append(buf, at, capacity, n, p, was, all, k + i);
    }
    WrittenAll(buf[..], was, at, n, all);
  }

  lemma BasicAt(o: Options)
    ensures var k := if o.HasIdentity() then 2 else 1;
            && |Basic(o)| == k + |o.appMetadata| && Basic(o)[0] == Property(SOCKET_TYPE_NAME, o.type_.Name())
            && (o.HasIdentity() ==> Basic(o)[1] == Property(IDENTITY_NAME, o.routingId))
            && forall i :: 0 <= i < |o.appMetadata| ==>
                 Basic(o)[k + i] == Property(CStr(o.appMetadata[i].name), CStr(o.appMetadata[i].value))
  {
    hide Ascii, SocketType.Name;
  }

  lemma WrittenNone(was: seq<Byte>, at: nat, ps: seq<Property>)
    requires AllFit(ps) && at <= |was|
    ensures Written(was, was, at, 0, ps, 0)
  {
    assert ps[..0] == [];
  }

  lemma WrittenAll(buf: seq<Byte>, was: seq<Byte>, at: nat, n: nat, ps: seq<Property>)
    requires AllFit(ps) && Written(buf, was, at, n, ps, |ps|)
    ensures n == |Serialised(ps)| && at + n <= |was| && buf == Overlaid(was, at, Serialised(ps))
  {
    assert ps[..|ps|] == ps;
  }

  // A command is its prefix and the properties, and nothing is left over.
  method MakeCommand(prefix: Text, o: Options) returns (buf: array<Byte>)
    requires Announceable(o)
    ensures fresh(buf) && buf[..] == prefix + Serialised(Basic(o))
  {
    hide Basic, Serialised;
    var len := BasicPropertiesLen(o);
    buf := new Byte[|prefix| + len];
    ghost var s := buf[..];
    CopyTo(buf, 0, prefix);
    var n := AddBasicProperties(buf, |prefix|, len, o);
    OverlaidTwice(s, 0, prefix, Serialised(Basic(o)));
  }

  // ---------------------------------------------------------------- reading

  // The properties of a list, and whether nothing is left over behind them.
  datatype Parsed = Parsed(ps: seq<Property>, clean: bool)

  // What is at the head of the input: a property and its length, or the end of the list.  A cut in
  // the middle of a property ends the list; what counts then is only whether there are bytes left
  // behind the last field that was complete.
  datatype Item = End(clean: bool) | One(p: Property, end: nat)

  function ItemOf(d: seq<Byte>): (r: Item)
    ensures r.One? ==> 0 < r.end <= |d|
  {
    if |d| <= 1 then End(d == [])
    else
      var name: nat := d[0];
      var len := 1 + name;
      if |d| < len then End(false)
      else if |d| < len + 4 then End(|d| == len)
      else
        var end := len + 4 + Get(d[len..len + 4]);
        if |d| < end then End(|d| == len + 4)
        else One(Property(d[1..len], d[len + 4..end]), end)
  }

  function Parse(d: seq<Byte>): Parsed {
    match ItemOf(d)
    case End(clean) => Parsed([], clean)
    case One(p, end) => var rest := Parse(d[end..]); Parsed([p] + rest.ps, rest.clean)
  }

  // The same from position `at` on.
  lemma ParseAt(d: seq<Byte>, at: nat)
    requires at <= |d|
    ensures var r := ItemOf(d[at..]);
            Parse(d[at..]) == if r.End? then Parsed([], r.clean)
                              else var rest := Parse(d[at + r.end..]); Parsed([r.p] + rest.ps, rest.clean)
  {
    hide ItemOf;
    var r := ItemOf(d[at..]);
    if r.One? { Shifted(d, at, at + r.end, |d|); }
  }

  lemma ItemAt(d: seq<Byte>, at: nat)
    requires |d| - at > 1
    ensures var name := at + 1;
            var len: nat := name + d[at];
            var value := len + 4;
            ItemOf(d[at..]) ==
            if |d| < len then End(false)
            else if |d| < value then End(|d| == len)
            else
              var end := value + Get(d[len..value]);
              if |d| < end then End(|d| == value) else One(Property(d[name..len], d[value..end]), end - at)
  {
    hide Get;
    var name := at + 1;
    var len: nat := name + d[at];
    if len + 4 <= |d| {
      Shifted(d, at, len, len + 4);
      var value, end := len + 4, len + 4 + Get(d[len..len + 4]);
      if end <= |d| {
        Shifted(d, at, name, len);
        Shifted(d, at, value, end);
      }
    }
  }

  // What may be left over: nothing, or a property cut off behind its name or behind its length.
  ghost predicate Tail(t: seq<Byte>) {
    t == [] || (|t| > 1 && var name: nat := t[0]; |t| == 1 + name || (|t| == 5 + name && Get(t[1 + name..]) > 0))
  }

  lemma TailClean(t: seq<Byte>)
    ensures Parse(t) == Parsed([], true) <==> Tail(t)
  {
    if |t| > 1 && |t| == 5 + t[0] as nat {
      assert t[1 + t[0] as nat..5 + t[0] as nat] == t[1 + t[0] as nat..];
    }
  }

  // Such inputs: a name and nothing behind it, or a length and nothing behind that.
  lemma CutOffAccepted()
    ensures Parse([1, 65]) == Parsed([], true) && Parse([1, 65, 0, 0, 0, 9]) == Parsed([], true)
  {
    var t: seq<Byte> := [1, 65, 0, 0, 0, 9];
    assert t[2..] == Put(9, 4) by { assert Put(9, 4) == Put(0, 3) + [9]; }
    Powers();
    GetPut(9, 4);
    TailClean([1, 65]);
    TailClean(t);
  }

  // A property at the head of the input is read.
  lemma ParseOne(p: Property, rest: seq<Byte>)
    requires Fits(p)
    ensures Parse(Bytes(p) + rest) == Parsed([p] + Parse(rest).ps, Parse(rest).clean)
  {
    hide Get, Put;
    var d, n, v := Bytes(p) + rest, |p.name|, |p.value|;
    Powers();
    GetPut(v, 4);
    assert d[0] == n && d[1..1 + n] == p.name;
    assert d[1 + n..5 + n] == Put(v, 4);
    assert d[5 + n..5 + n + v] == p.value && d[5 + n + v..] == rest;
  }

  lemma OneByOne(d: seq<Byte>, n: nat, v: nat)
    requires 5 + n + v <= |d|
    ensures d == [d[0]] + d[1..1 + n] + d[1 + n..5 + n] + d[5 + n..5 + n + v] + d[5 + n + v..]
  {
  }

  // And nothing else is.
  lemma OneParsed(d: seq<Byte>)
    requires Parse(d).ps != []
    ensures var p := Parse(d).ps[0];
            Fits(p) && |Bytes(p)| <= |d| && d == Bytes(p) + d[|Bytes(p)|..]
  {
    hide Get, Put;
    var p := Parse(d).ps[0];
    var n := |p.name|;
    Powers();
    PutGet(d[1 + n..5 + n]);
    OneByOne(d, n, |p.value|);
  }

  // A list is accepted, as these properties, exactly if it is their bytes and such a tail.
  lemma {:induction false} ParseSerialised(ps: seq<Property>, t: seq<Byte>)
    requires AllFit(ps) && Tail(t)
    ensures Parse(Serialised(ps) + t) == Parsed(ps, true)
  {
    hide Parse, Tail, Bytes;
    if ps == [] {
      assert Serialised(ps) + t == t;
      TailClean(t);
    } else {
      ParseSerialised(ps[1..], t);
      ParseOne(ps[0], Serialised(ps[1..]) + t);
      assert Serialised(ps) + t == Bytes(ps[0]) + (Serialised(ps[1..]) + t);
      assert ps == [ps[0]] + ps[1..];
    }
  }

  lemma {:induction false} SerialisedParse(d: seq<Byte>)
    requires Parse(d).clean
    ensures var ps := Parse(d).ps;
            && AllFit(ps) && |Serialised(ps)| <= |d|
            && d == Serialised(ps) + d[|Serialised(ps)|..] && Tail(d[|Serialised(ps)|..])
    decreases |d|
  {
    hide Parse, Tail, Bytes;
    var ps := Parse(d).ps;
    if ps == [] {
      TailClean(d);
      assert d[0..] == d;
    } else {
      OneParsed(d);
      var n := |Bytes(ps[0])|;
      ParseOne(ps[0], d[n..]);
      SerialisedParse(d[n..]);
      assert ps[1..] == Parse(d[n..]).ps;
      assert d[n..][|Serialised(ps[1..])|..] == d[|Serialised(ps)|..];
    }
  }

  // ---------------------------------------------------------------- taking properties in

  datatype Status = Ok | Einval | Eproto

  datatype Peer = Peer(properties: map<Text, Text>, routingId: Text)

  // A property may be taken in: a socket type must suit ours.
  predicate Welcome(o: Options, p: Property) {
    p.name == SOCKET_TYPE_NAME ==> o.type_.Accepts(p.value)
  }

  // The first value of a name stays; the last identity counts.
  function TakeIn(o: Options, peer: Peer, p: Property): Peer {
    Peer(
      if p.name in peer.properties then peer.properties else peer.properties[p.name := p.value],
      if p.name == IDENTITY_NAME && o.recvRoutingId then p.value else peer.routingId)
  }

  datatype Taken = Taken(peer: Peer, status: Status)

  ghost function Take(o: Options, peer: Peer, d: Parsed): Taken
    decreases |d.ps|
  {
    if d.ps == [] then Taken(peer, if d.clean then Ok else Eproto)
    else if !Welcome(o, d.ps[0]) then Taken(peer, Einval)
    else Take(o, TakeIn(o, peer, d.ps[0]), Parsed(d.ps[1..], d.clean))
  }

  lemma KeysDiffer()
    ensures IDENTITY_NAME != SOCKET_TYPE_NAME
  {
    assert |IDENTITY_NAME| != |SOCKET_TYPE_NAME|;
  }

  lemma TakeNone(o: Options, peer: Peer)
    ensures Take(o, peer, Parsed([], true)) == Taken(peer, Ok)
    ensures Take(o, peer, Parsed([], false)) == Taken(peer, Eproto)
  {
  }

  lemma ParseNone(d: seq<Byte>)
    requires |d| <= 1
    ensures Parse(d) == Parsed([], d == [])
  {
  }

  lemma TakeOne(o: Options, peer: Peer, p: Property, rest: Parsed)
    ensures Take(o, peer, Parsed([p] + rest.ps, rest.clean)) ==
            if Welcome(o, p) then Take(o, TakeIn(o, peer, p), rest) else Taken(peer, Einval)
  {
    assert ([p] + rest.ps)[1..] == rest.ps;
  }

  // The value of the first property of that name.
  ghost predicate FirstValue(ps: seq<Property>, name: Text, value: Text) {
    exists i :: 0 <= i < |ps| && ps[i] == Property(name, value) && forall j :: 0 <= j < i ==> ps[j].name != name
  }

  // What was known stays, and each new name has its first value.
  ghost predicate FirstWins(was: map<Text, Text>, ps: seq<Property>, now: map<Text, Text>) {
    && (forall k :: k in was ==> k in now && now[k] == was[k])
    && (forall k :: k in now && k !in was ==> FirstValue(ps, k, now[k]))
    && (forall i :: 0 <= i < |ps| ==> ps[i].name in now)
  }

  lemma FirstValueLater(p: Property, ps: seq<Property>, name: Text, value: Text)
    requires FirstValue(ps, name, value) && p.name != name
    ensures FirstValue([p] + ps, name, value)
  {
    var i :| 0 <= i < |ps| && ps[i] == Property(name, value) && forall j :: 0 <= j < i ==> ps[j].name != name;
    assert ([p] + ps)[i + 1] == ps[i];
  }

  lemma FirstWinsStep(o: Options, peer: Peer, p: Property, ps: seq<Property>, now: map<Text, Text>)
    requires FirstWins(TakeIn(o, peer, p).properties, ps, now)
    ensures FirstWins(peer.properties, [p] + ps, now)
  {
    hide FirstValue;
    var was, all := peer.properties, [p] + ps;
    forall k | k in now && k !in was ensures FirstValue(all, k, now[k]) {
      if k == p.name { FirstValueHere(p, ps); } else { FirstValueLater(p, ps, k, now[k]); }
    }
    assert forall i :: 1 <= i < |all| ==> all[i] == ps[i - 1];
  }

  lemma FirstValueHere(p: Property, ps: seq<Property>)
    ensures FirstValue([p] + ps, p.name, p.value)
  {
    assert ([p] + ps)[0] == Property(p.name, p.value);
  }

  // The list is taken in whole exactly if it is clean and every socket type in it suits ours;
  // the first that does not stops it.
  lemma {:induction false} TakeStatus(o: Options, peer: Peer, d: Parsed)
    ensures Take(o, peer, d).status == Ok <==> d.clean && forall i :: 0 <= i < |d.ps| ==> Welcome(o, d.ps[i])
    ensures Take(o, peer, d).status == Einval <==> exists i :: 0 <= i < |d.ps| && !Welcome(o, d.ps[i])
    decreases |d.ps|
  {
    hide Welcome, TakeIn;
    if d.ps != [] && Welcome(o, d.ps[0]) {
      var rest := Parsed(d.ps[1..], d.clean);
      TakeStatus(o, TakeIn(o, peer, d.ps[0]), rest);
      assert forall i :: 0 <= i < |rest.ps| ==> rest.ps[i] == d.ps[i + 1];
      assert forall i :: 1 <= i < |d.ps| ==> d.ps[i] == rest.ps[i - 1];
    }
  }

  // The value of the last property of that name.
  ghost predicate LastValue(ps: seq<Property>, name: Text, value: Text) {
    exists i :: 0 <= i < |ps| && ps[i] == Property(name, value) && forall j :: i < j < |ps| ==> ps[j].name != name
  }

  // A routing id that is to be received is the last identity; if there is none, or it is not to be
  // received, it stays.
  ghost predicate Identified(recv: bool, was: Text, ps: seq<Property>, now: Text) {
    if recv && exists i :: 0 <= i < |ps| && ps[i].name == IDENTITY_NAME
    then LastValue(ps, IDENTITY_NAME, now)
    else now == was
  }

  lemma IdentifiedStep(o: Options, peer: Peer, p: Property, ps: seq<Property>, now: Text)
    requires Identified(o.recvRoutingId, TakeIn(o, peer, p).routingId, ps, now)
    ensures Identified(o.recvRoutingId, peer.routingId, [p] + ps, now)
  {
    hide Ascii;
    var all := [p] + ps;
    assert forall i :: 1 <= i < |all| ==> all[i] == ps[i - 1];
    if o.recvRoutingId {
      if i :| 0 <= i < |ps| && ps[i].name == IDENTITY_NAME {
        var k :| 0 <= k < |ps| && ps[k] == Property(IDENTITY_NAME, now)
                 && forall j :: k < j < |ps| ==> ps[j].name != IDENTITY_NAME;
        assert all[k + 1] == ps[k] && all[i + 1] == ps[i];
      } else {
        assert all[0] == p;
      }
    }
  }

  // Of the properties before the first unwelcome one, the first value of each name is kept, and
  // the last identity.
  lemma {:induction false} TakeAll(o: Options, peer: Peer, d: Parsed, n: nat)
    requires n <= |d.ps| && forall i :: 0 <= i < n ==> Welcome(o, d.ps[i])
    requires n < |d.ps| ==> !Welcome(o, d.ps[n])
    ensures FirstWins(peer.properties, d.ps[..n], Take(o, peer, d).peer.properties)
    ensures Identified(o.recvRoutingId, peer.routingId, d.ps[..n], Take(o, peer, d).peer.routingId)
    decreases n
  {
    hide Welcome, TakeIn, FirstWins, Identified;
    if n == 0 {
      FirstWinsNone(peer.properties);
      NoneTaken(o.recvRoutingId, peer.routingId);
    } else {
      var rest := Parsed(d.ps[1..], d.clean);
      TakeAll(o, TakeIn(o, peer, d.ps[0]), rest, n - 1);
      FirstWinsStep(o, peer, d.ps[0], rest.ps[..n - 1], Take(o, peer, d).peer.properties);
      IdentifiedStep(o, peer, d.ps[0], rest.ps[..n - 1], Take(o, peer, d).peer.routingId);
      assert d.ps[..n] == [d.ps[0]] + rest.ps[..n - 1];
    }
  }

  lemma NoneTaken(recv: bool, id: Text)
    ensures Identified(recv, id, [], id)
  {
  }

  lemma FirstWinsNone(was: map<Text, Text>)
    ensures FirstWins(was, [], was)
  {
  }

  class Mechanism {
    const options: Options
    var zapProperties: map<Text, Text>
    var zmtpProperties: map<Text, Text>
    var routingId: Text

    constructor (options: Options)
      ensures this.options == options && zapProperties == map[] && zmtpProperties == map[] && routingId == []
    {
      this.options, zapProperties, zmtpProperties, routingId := options, map[], map[], [];
    }

    ghost function Known(zap: bool): Peer
      reads this
    {
      Peer(if zap then zapProperties else zmtpProperties, routingId)
    }

    method ParseMetadata(d: seq<Byte>, zap: bool) returns (rc: Status)
      modifies this
      ensures Taken(Known(zap), rc) == Take(options, old(Known(zap)), Parse(d))
      ensures if zap then zmtpProperties == old(zmtpProperties) else zapProperties == old(zapProperties)
    {
      hide Get, ItemOf, Parse, Take, TakeIn, Welcome;
      var at := 0;
      assert d[0..] == d;
      while |d| - at > 1
        invariant at <= |d|
        invariant Take(options, old(Known(zap)), Parse(d)) == Take(options, Known(zap), Parse(d[at..]))
        invariant Known(!zap).properties == old(Known(!zap)).properties
      {
        ParseAt(d, at);
        ItemAt(d, at);
        TakeNone(options, Known(zap));
        var nameLength: nat := d[at];
        at := at + 1;
        if |d| - at < nameLength {
          break;
        }
        var name := d[at..at + nameLength];
        at := at + nameLength;
        if |d| - at < 4 {
          break;
        }
        var valueLength := Get(d[at..at + 4]);
        at := at + 4;
        if |d| - at < valueLength {
          break;
        }
        var value := d[at..at + valueLength];
        at := at + valueLength;
        TakeOne(options, Known(zap), Property(name, value), Parse(d[at..]));
        var ok := TakeProperty(name, value, zap);
        if !ok {
          return Einval;
        }
      }
      if |d| - at <= 1 { ParseNone(d[at..]); TakeNone(options, Known(zap)); }
      rc := if |d| - at > 0 then Eproto else Ok;
    }

    method TakeProperty(name: Text, value: Text, zap: bool) returns (ok: bool)
      modifies this
      ensures ok == Welcome(options, Property(name, value))
      ensures Known(zap) == if ok then TakeIn(options, old(Known(zap)), Property(name, value)) else old(Known(zap))
      ensures Known(!zap).properties == old(Known(!zap)).properties
    {
      hide SocketType.Accepts, Ascii;
      KeysDiffer();
      if name == IDENTITY_NAME && options.recvRoutingId {
        routingId := value;
      } else if name == SOCKET_TYPE_NAME {
        if !options.type_.Accepts(value) {
          return false;
        }
      }
      Insert(name, value, zap);
      return true;
    }

    // std::map::emplace
    method Insert(name: Text, value: Text, zap: bool)
      modifies this`zapProperties, this`zmtpProperties
      ensures var was := old(Known(zap)).properties;
              Known(zap).properties == if name in was then was else was[name := value]
      ensures Known(!zap) == old(Known(!zap))
    {
      if zap {
        if name !in zapProperties { zapProperties := zapProperties[name := value]; }
      } else {
        if name !in zmtpProperties { zmtpProperties := zmtpProperties[name := value]; }
      }
    }
  }

  // The keys that can be set start with "X-" (options.cpp:777).
  predicate Settable(o: Options) {
    forall i :: 0 <= i < |o.appMetadata| ==> |o.appMetadata[i].name| >= 2 && o.appMetadata[i].name[..2] == Ascii("X-")
  }

  // So all that is announced is welcome if and only if the socket types suit each other.
  lemma AllWelcome(o: Options, to: Options)
    requires Settable(o)
    ensures (forall i :: 0 <= i < |Basic(o)| ==> Welcome(to, Basic(o)[i])) <==> Suits(to.type_, o.type_)
  {
    hide SocketType.Name, SocketType.Accepts, Basic;
    BasicAt(o);
    KeysDiffer();
    AcceptsSuits(to.type_, o.type_);
    var k := if o.HasIdentity() then 2 else 1;
    forall i | 1 <= i < |Basic(o)| ensures Welcome(to, Basic(o)[i]) {
      if i >= k {
        assert Basic(o)[k + (i - k)].name == CStr(o.appMetadata[i - k].name);
        XKey(o.appMetadata[i - k].name);
      }
    }
  }

  lemma XKey(name: Text)
    requires |name| >= 2 && name[..2] == Ascii("X-")
    ensures CStr(name) != SOCKET_TYPE_NAME && CStr(name) != IDENTITY_NAME
  {
    hide Ascii;
    FirstLetters();
    assert name[0] == name[..2][0];
    assert CStr(name) == [name[0]] + CStr(name[1..]);
  }

  lemma FirstLetters()
    ensures |Ascii("X-")| == 2 && Ascii("X-")[0] == 88
    ensures |SOCKET_TYPE_NAME| == 11 && SOCKET_TYPE_NAME[0] == 83
    ensures |IDENTITY_NAME| == 8 && IDENTITY_NAME[0] == 73
  {
    assert 'X' as int == 88 && 'S' as int == 83 && 'I' as int == 73;
  }

  // The routing id is announced by the three types that have one, as the one identity in the list.
  lemma IdentityAnnounced(o: Options)
    requires Settable(o)
    ensures var ps, mine := Basic(o), o.type_ in {Req, Dealer, Router};
            && ((exists i :: 0 <= i < |ps| && ps[i].name == IDENTITY_NAME) <==> mine)
            && forall v :: LastValue(ps, IDENTITY_NAME, v) <==> mine && v == o.routingId
  {
    hide SocketType.Name, Basic, Ascii;
    BasicAt(o);
    KeysDiffer();
    var ps, k := Basic(o), if o.HasIdentity() then 2 else 1;
    forall i | k <= i < |ps| ensures ps[i].name != IDENTITY_NAME {
      assert ps[k + (i - k)].name == CStr(o.appMetadata[i - k].name);
      XKey(o.appMetadata[i - k].name);
    }
    if o.HasIdentity() {
      assert ps[1] == Property(IDENTITY_NAME, o.routingId);
    }
  }

  // What a DEALER with the routing id "A" writes.
  lemma DealerAnnounces()
    ensures var o := Options(Dealer, [65], false, []);
            && AllFit(Basic(o))
            && Serialised(Basic(o)) ==
               [11, 83, 111, 99, 107, 101, 116, 45, 84, 121, 112, 101, 0, 0, 0, 6, 68, 69, 65, 76, 69, 82]
               + [8, 73, 100, 101, 110, 116, 105, 116, 121, 0, 0, 0, 1, 65]
  {
    hide Bytes, Ascii, SocketType.Name;
    var o := Options(Dealer, [65], false, []);
    var t, i := Property(SOCKET_TYPE_NAME, Dealer.Name()), Property(IDENTITY_NAME, [65]);
    TypeProperty();
    IdentityProperty();
    assert Basic(o) == [] + [t] + [i];
    SerialisedOne([], t);
    SerialisedOne([t], i);
  }

  lemma TypeProperty()
    ensures Bytes(Property(SOCKET_TYPE_NAME, Dealer.Name())) ==
            [11, 83, 111, 99, 107, 101, 116, 45, 84, 121, 112, 101, 0, 0, 0, 6, 68, 69, 65, 76, 69, 82]
  {
    hide Ascii, SocketType.Name, Put;
    SmallSize(6);
    NamesSpelled();
  }

  lemma IdentityProperty()
    ensures Bytes(Property(IDENTITY_NAME, [65])) == [8, 73, 100, 101, 110, 116, 105, 116, 121, 0, 0, 0, 1, 65]
  {
    hide Ascii, Put;
    SmallSize(1);
    NamesSpelled();
  }

  lemma NamesSpelled()
    ensures SOCKET_TYPE_NAME == [83, 111, 99, 107, 101, 116, 45, 84, 121, 112, 101]
    ensures IDENTITY_NAME == [73, 100, 101, 110, 116, 105, 116, 121]
    ensures Dealer.Name() == [68, 69, 65, 76, 69, 82]
  {
  }

  // What one side announces the other takes in, if the socket types suit each other, with the
  // first value of each name and the routing id, if there is one and it is wanted; otherwise it
  // refuses, and nothing is taken in.
  method Handshake(prefix: Text, o: Options, to: Mechanism) returns (rc: Status)
    requires Announceable(o)
    modifies to
    ensures rc == Ok <==> forall i :: 0 <= i < |Basic(o)| ==> Welcome(to.options, Basic(o)[i])
    ensures Settable(o) ==> (rc == Ok <==> Suits(to.options.type_, o.type_))
    ensures rc == Ok || rc == Einval
    ensures rc == Ok ==> FirstWins(old(to.zmtpProperties), Basic(o), to.zmtpProperties)
    ensures rc == Ok ==> Identified(to.options.recvRoutingId, old(to.routingId), Basic(o), to.routingId)
    ensures rc == Ok && Settable(o) ==>
              to.routingId == if to.options.recvRoutingId && o.type_ in {Req, Dealer, Router} then o.routingId
                              else old(to.routingId)
    ensures rc != Ok && Settable(o) ==> to.zmtpProperties == old(to.zmtpProperties) && to.routingId == old(to.routingId)
    ensures to.zapProperties == old(to.zapProperties)
  {
    hide Serialised, Parse, Take, Basic, Welcome, FirstWins, Identified, Ascii, Suits;
    var command := MakeCommand(prefix, o);
    assert command[..][|prefix|..] == Serialised(Basic(o)) + [];
    ParseSerialised(Basic(o), []);
    TakeStatus(to.options, to.Known(false), Parsed(Basic(o), true));
    ghost var was := to.Known(false);
    rc := to.ParseMetadata(command[..][|prefix|..], false);
    if rc == Ok { Accepted(to.options, was, o); }
    if Settable(o) { AllWelcome(o, to.options); }
    if rc != Ok && Settable(o) { Refused(to.options, was, o); }
  }

  lemma Accepted(to: Options, was: Peer, o: Options)
    requires forall i :: 0 <= i < |Basic(o)| ==> Welcome(to, Basic(o)[i])
    ensures var now := Take(to, was, Parsed(Basic(o), true)).peer;
            && FirstWins(was.properties, Basic(o), now.properties)
            && Identified(to.recvRoutingId, was.routingId, Basic(o), now.routingId)
            && (Settable(o) ==>
                  now.routingId == if to.recvRoutingId && o.type_ in {Req, Dealer, Router} then o.routingId
                                   else was.routingId)
  {
    hide Take, Basic, Welcome, FirstWins, Ascii, LastValue;
    TakeAll(to, was, Parsed(Basic(o), true), |Basic(o)|);
    assert Basic(o)[..|Basic(o)|] == Basic(o);
    if Settable(o) { IdentityAnnounced(o); }
  }

  // The socket type is what comes first.
  lemma Refused(to: Options, was: Peer, o: Options)
    requires Settable(o) && exists i :: 0 <= i < |Basic(o)| && !Welcome(to, Basic(o)[i])
    ensures Take(to, was, Parsed(Basic(o), true)).peer == was
  {
    hide Basic, SocketType.Name, SocketType.Accepts, Ascii;
    BasicAt(o);
    AllWelcome(o, to);
    AcceptsSuits(to.type_, o.type_);
    assert !Welcome(to, Basic(o)[0]);
  }
}
