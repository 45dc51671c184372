/**
  Multipart messages packed into one (ExternalLib/cppzmq/include/zmq_addon.hpp:220-302, the
  format of ZeroMQ RFC 50): every part is a size followed by the data.  A size below 255 takes
  one byte; 255 announces a size of four bytes, which the decoder also accepts for small parts.
 */
module Multipart {
  import opened Wire

  type Part = seq<Byte>

  datatype Result<T> = Ok(value: T) | RangeError | OutOfRange

  const UINT8_MAX := 255
  const UINT32_MAX := 0xFFFF_FFFF

  // ---------------------------------------------------------------- the format

  // A part with a size of one byte or, if `long`, of five.
  function Packed(p: Part, long: bool): seq<Byte>
    requires long || |p| < UINT8_MAX
  {
    (if long then [UINT8_MAX] + Put(|p|, 4) else [|p|]) + p
  }

  ghost predicate Packable(parts: seq<Part>, long: seq<bool>) {
    && |long| == |parts|
    && forall i :: 0 <= i < |parts| ==> |parts[i]| <= UINT32_MAX && (long[i] || |parts[i]| < UINT8_MAX)
  }

  // The parts one behind the other, each with the size it has in `long`.
  ghost function Tiles(parts: seq<Part>, long: seq<bool>): seq<Byte>
    requires Packable(parts, long)
  {
    if parts == [] then [] else Packed(parts[0], long[0]) + Tiles(parts[1..], long[1..])
  }

  // ---------------------------------------------------------------- encoding

  ghost predicate Small(parts: seq<Part>) {
    forall i :: 0 <= i < |parts| ==> |parts[i]| <= UINT32_MAX
  }

  ghost function Encoded(parts: seq<Part>): seq<Byte> {
    if parts == [] then [] else Packed(parts[0], |parts[0]| >= UINT8_MAX) + Encoded(parts[1..])
  }

  // The sizes at the limit of one byte.
  lemma SizesWritten(p: Part)
    ensures |p| <= 254 ==> Encoded([p]) == [|p|] + p
    ensures |p| == 255 ==> Encoded([p]) == [255, 0, 0, 0, 255] + p
  {
    hide Put;
    SmallSize(255);
    assert [p][1..] == [];
  }

  lemma Regroup(a: seq<Byte>, b: seq<Byte>, c: seq<Byte>)
    ensures a + (b + c) == a + b + c
  {
  }

  lemma {:induction false} EncodedConcat(a: seq<Part>, b: seq<Part>)
    ensures Encoded(a + b) == Encoded(a) + Encoded(b)
  {
    hide Packed;
    if a == [] {
      assert a + b == b;
    } else {
      EncodedConcat(a[1..], b);
      assert (a + b)[0] == a[0] && (a + b)[1..] == a[1..] + b;
      Regroup(Packed(a[0], |a[0]| >= UINT8_MAX), Encoded(a[1..]), Encoded(b));
    }
  }

  lemma EncodedStep(parts: seq<Part>, i: nat)
    requires i < |parts|
    ensures Encoded(parts[..i + 1]) == Encoded(parts[..i]) + Packed(parts[i], |parts[i]| >= UINT8_MAX)
    ensures |Encoded(parts[..i + 1])| <= |Encoded(parts)|
  {
    assert parts[..i + 1] == parts[..i] + [parts[i]] && parts == parts[..i + 1] + parts[i + 1..];
    EncodedConcat(parts[..i], [parts[i]]);
    EncodedConcat(parts[..i + 1], parts[i + 1..]);
    var one: seq<Part> := [parts[i]];
    assert one[1..] == [];
  }

  // The first pass: the size of the encoding.
  method EncodedSize(parts: seq<Part>) returns (r: Result<nat>)
    ensures r.Ok? <==> Small(parts)
    ensures if r.Ok? then r.value == |Encoded(parts)| else r.RangeError?
  {
    var size: nat := 0;
    for i := 0 to |parts|
      invariant Small(parts[..i]) && size == |Encoded(parts[..i])|
    {
      if |parts[i]| > UINT32_MAX {
        return RangeError;
      }
      EncodedStep(parts, i);
      var count := if |parts[i]| < UINT8_MAX then 1 else 5;
      size := size + |parts[i]| + count;
    }
    assert parts[..|parts|] == parts;
    return Ok(size);
  }

  // The second pass writes exactly the bytes the first one counted.
  method Encode(parts: seq<Part>) returns (r: Result<array<Byte>>)
    ensures r.Ok? <==> Small(parts)
    ensures if r.Ok? then fresh(r.value) && r.value[..] == Encoded(parts) else r.RangeError?
  {
    var size := EncodedSize(parts);
    if size.RangeError? {
      return RangeError;
    }
    var buf := new Byte[size.value];
    var at := 0;
    for i := 0 to |parts|
      invariant at == |Encoded(parts[..i])| <= buf.Length == |Encoded(parts)| && buf[..at] == Encoded(parts[..i])
    {
      EncodedStep(parts, i);
      ghost var was := buf[..];
      at := PutPart(buf, at, parts[i]);
      assert buf[..at] == was[..|Encoded(parts[..i])|] + Packed(parts[i], |parts[i]| >= UINT8_MAX);
    }
    assert parts[..|parts|] == parts;
    assert buf[..] == buf[..at];
    return Ok(buf);
  }

  method PutPart(buf: array<Byte>, at: nat, p: Part) returns (end: nat)
    requires |p| <= UINT32_MAX && at + |Packed(p, |p| >= UINT8_MAX)| <= buf.Length
    modifies buf
    ensures end == at + |Packed(p, |p| >= UINT8_MAX)|
    ensures buf[..] == Overlaid(old(buf[..]), at, Packed(p, |p| >= UINT8_MAX))
  {
    hide Overlaid;
    ghost var s, head := buf[..], if |p| < UINT8_MAX then [|p|] else [UINT8_MAX] + Put(|p|, 4);
    if |p| < UINT8_MAX {
      CopyTo(buf, at, [|p|]);
      end := at + 1;
    } else {
      CopyTo(buf, at, [UINT8_MAX]);
      PutUint32(buf, at + 1, |p|);
      OverlaidTwice(s, at, [UINT8_MAX], Put(|p|, 4));
      end := at + 5;
    }
    CopyTo(buf, end, p);
    OverlaidTwice(s, at, head, p);
    end := end + |p|;
  }

  // ---------------------------------------------------------------- decoding

  // The size and the length of its field; none if the field is cut off.
  datatype Head = Head(size: nat, width: nat) | NoHead

  function HeadOf(s: seq<Byte>): (h: Head)
    requires s != []
    ensures h.Head? ==> 0 < h.width <= |s|
  {
    if s[0] != UINT8_MAX then Head(s[0], 1)
    else if |s| < 5 then NoHead
    else Head(Get(s[1..5]), 5)
  }

  // The parts, and for each whether its size took five bytes.
  datatype Unpacked = Unpacked(parts: seq<Part>, long: seq<bool>)

  ghost function Decoded(s: seq<Byte>): Result<Unpacked> {
    if s == [] then Ok(Unpacked([], []))
    else
      var h := HeadOf(s);
      if h.NoHead? || h.width + h.size > |s| then OutOfRange
      else
        var rest := Decoded(s[h.width + h.size..]);
        if rest.Ok? then
          Ok(Unpacked([s[h.width..h.width + h.size]] + rest.value.parts, [h.width == 5] + rest.value.long))
        else rest
  }

  lemma HeadAt(s: seq<Byte>, at: nat)
    requires at < |s|
    ensures HeadOf(s[at..]) == if s[at] != UINT8_MAX then Head(s[at], 1)
                               else if |s| - at < 5 then NoHead
                               else Head(Get(s[at + 1..at + 5]), 5)
  {
    hide Get;
    if |s| - at >= 5 { Shifted(s, at, at + 1, at + 5); }
  }

  // One round of the loop: from `at` on there is a size and a part, or the input is malformed.
  lemma DecodedAt(s: seq<Byte>, at: nat)
    requires at < |s|
    ensures var h := HeadOf(s[at..]);
            var here := Decoded(s[at..]);
            if h.NoHead? || at + h.width + h.size > |s| then here == OutOfRange
            else
              var rest := Decoded(s[at + h.width + h.size..]);
              var p := s[at + h.width..at + h.width + h.size];
              here == if rest.Ok? then Ok(Unpacked([p] + rest.value.parts, [h.width == 5] + rest.value.long))
                      else OutOfRange
  {
    hide HeadOf, Get;
    var h := HeadOf(s[at..]);
    if h.Head? && at + h.width + h.size <= |s| {
      Shifted(s, at, at + h.width, at + h.width + h.size);
      Shifted(s, at, at + h.width + h.size, |s|);
      NeverRangeError(s[at + h.width + h.size..]);
    }
  }

  lemma NeverRangeError(s: seq<Byte>)
    ensures !Decoded(s).RangeError?
  {
  }

  lemma DecodedNothing()
    ensures Decoded([]) == Ok(Unpacked([], []))
  {
  }

  method ReadSize(s: seq<Byte>, at: nat) returns (h: Head)
    requires at < |s|
    ensures h == HeadOf(s[at..]) && (h.Head? ==> at + h.width <= |s|)
  {
    hide Get;
    HeadAt(s, at);
    if s[at] != UINT8_MAX {
      return Head(s[at], 1);
    }
    if |s| - (at + 1) < 4 {
      return NoHead;
    }
    return Head(Get(s[at + 1..at + 5]), 5);
  }

  method Decode(s: seq<Byte>) returns (r: Result<seq<Part>>)
    ensures r == if Decoded(s).Ok? then Ok(Decoded(s).value.parts) else OutOfRange
  {
    hide Decoded, Get, HeadOf;
    var parts: seq<Part> := [];
    var at := 0;
    assert s[0..] == s;
    while at < |s|
      invariant at <= |s|
      invariant Decoded(s).Ok? == Decoded(s[at..]).Ok?
      invariant Decoded(s).Ok? ==> Decoded(s).value.parts == parts + Decoded(s[at..]).value.parts
    {
      DecodedAt(s, at);
      var h := ReadSize(s, at);
      if h.NoHead? {
        return OutOfRange;
      }
      at := at + h.width;
      if |s| - at < h.size {
        return OutOfRange;
      }
      parts := parts + [s[at..at + h.size]];
      at := at + h.size;
    }
    assert s[at..] == [];
    DecodedNothing();
    assert parts == parts + Decoded(s[at..]).value.parts;
    return Ok(parts);
  }

  // ---------------------------------------------------------------- what is accepted

  lemma HeadPacked(p: Part, long: bool, rest: seq<Byte>)
    requires |p| <= UINT32_MAX && (long || |p| < UINT8_MAX)
    ensures var s := Packed(p, long) + rest;
            var h := HeadOf(s);
            && h == Head(|p|, if long then 5 else 1) && h.width + h.size == |Packed(p, long)|
            && s[h.width..h.width + h.size] == p && s[h.width + h.size..] == rest
  {
    var s := Packed(p, long) + rest;
    if long {
      Powers();
      GetPut(|p|, 4);
      assert s[1..5] == Put(|p|, 4);
    }
  }

  lemma DecodedPacked(p: Part, long: bool, rest: seq<Byte>)
    requires |p| <= UINT32_MAX && (long || |p| < UINT8_MAX) && Decoded(rest).Ok?
    ensures Decoded(Packed(p, long) + rest) ==
            Ok(Unpacked([p] + Decoded(rest).value.parts, [long] + Decoded(rest).value.long))
  {
    hide HeadOf, Packed;
    HeadPacked(p, long, rest);
  }

  // Any tiling is decoded, whichever parts have long sizes.
  lemma {:induction false} DecodeTiles(parts: seq<Part>, long: seq<bool>)
    requires Packable(parts, long)
    ensures Decoded(Tiles(parts, long)) == Ok(Unpacked(parts, long))
  {
    hide HeadOf, Packed, Decoded;
    if parts == [] {
      DecodedNothing();
    } else {
      DecodeTiles(parts[1..], long[1..]);
      DecodedPacked(parts[0], long[0], Tiles(parts[1..], long[1..]));
      assert parts == [parts[0]] + parts[1..] && long == [long[0]] + long[1..];
    }
  }

  // What is decoded is a tiling of the whole input.
  lemma {:induction false} TilesDecoded(s: seq<Byte>)
    requires Decoded(s).Ok?
    ensures var u := Decoded(s).value; Packable(u.parts, u.long) && Tiles(u.parts, u.long) == s
  {
    hide Decoded, HeadOf, Packed;
    if s == [] {
      DecodedNothing();
    } else {
      DecodedHead(s);
      PackedHead(s);
      var h, u := HeadOf(s), Decoded(s).value;
      var rest := s[h.width + h.size..];
      TilesDecoded(rest);
      TilesOne(s[h.width..h.width + h.size], h.width == 5, Decoded(rest).value.parts, Decoded(rest).value.long);
      assert s == s[..h.width + h.size] + rest;
    }
  }

  lemma DecodedHead(s: seq<Byte>)
    requires s != [] && Decoded(s).Ok?
    ensures HeadOf(s).Head? && HeadOf(s).width + HeadOf(s).size <= |s|
    ensures var h := HeadOf(s);
            var rest := Decoded(s[h.width + h.size..]);
            && rest.Ok?
            && Decoded(s).value ==
               Unpacked([s[h.width..h.width + h.size]] + rest.value.parts, [h.width == 5] + rest.value.long)
  {
    hide HeadOf;
  }

  lemma TilesOne(p: Part, l: bool, parts: seq<Part>, long: seq<bool>)
    requires Packable(parts, long) && |p| <= UINT32_MAX && (l || |p| < UINT8_MAX)
    ensures Packable([p] + parts, [l] + long) && Tiles([p] + parts, [l] + long) == Packed(p, l) + Tiles(parts, long)
  {
    hide Packed;
    assert ([p] + parts)[1..] == parts && ([l] + long)[1..] == long;
  }

  lemma PackedHead(s: seq<Byte>)
    requires s != [] && HeadOf(s).Head? && HeadOf(s).width + HeadOf(s).size <= |s|
    ensures var h := HeadOf(s);
            var p := s[h.width..h.width + h.size];
            |p| <= UINT32_MAX && (h.width == 5 || |p| < UINT8_MAX) && Packed(p, h.width == 5) == s[..h.width + h.size]
  {
    var h := HeadOf(s);
    if h.width == 5 {
      Powers();
      PutGet(s[1..5]);
    }
  }

  // Decoding succeeds with these parts exactly if the input is a tiling by them.
  lemma Accepted(s: seq<Byte>, parts: seq<Part>)
    ensures Decoded(s).Ok? && Decoded(s).value.parts == parts <==>
            exists long :: Packable(parts, long) && Tiles(parts, long) == s
  {
    if Decoded(s).Ok? {
      TilesDecoded(s);
    }
    forall long | Packable(parts, long) && Tiles(parts, long) == s ensures Decoded(s) == Ok(Unpacked(parts, long)) {
      DecodeTiles(parts, long);
    }
  }

  // The encoder uses long sizes where they are needed.
  ghost function Needed(parts: seq<Part>): seq<bool> {
    seq(|parts|, i requires 0 <= i < |parts| => |parts[i]| >= UINT8_MAX)
  }

  lemma {:induction false} EncodedTiles(parts: seq<Part>)
    requires Small(parts)
    ensures Packable(parts, Needed(parts)) && Encoded(parts) == Tiles(parts, Needed(parts))
  {
    if parts != [] {
      EncodedTiles(parts[1..]);
      assert Needed(parts)[1..] == Needed(parts[1..]);
    }
  }

  lemma RoundTrip(parts: seq<Part>)
    requires Small(parts)
    ensures Decoded(Encoded(parts)).Ok? && Decoded(Encoded(parts)).value.parts == parts
  {
    EncodedTiles(parts);
    DecodeTiles(parts, Needed(parts));
  }

  // Encoding what was decoded gives nothing longer, and the same length exactly if no small
  // part had a long size; then it is the same input.
  lemma Reencoded(s: seq<Byte>)
    requires Decoded(s).Ok?
    ensures var u := Decoded(s).value;
            && |u.long| == |u.parts| && Small(u.parts) && |Encoded(u.parts)| <= |s|
            && (|Encoded(u.parts)| == |s| <==>
                forall i :: 0 <= i < |u.parts| ==> (u.long[i] ==> |u.parts[i]| >= UINT8_MAX))
            && (|Encoded(u.parts)| == |s| <==> Encoded(u.parts) == s)
  {
    TilesDecoded(s);
    Shorter(Decoded(s).value.parts, Decoded(s).value.long);
  }

  lemma {:induction false} Shorter(parts: seq<Part>, long: seq<bool>)
    requires Packable(parts, long)
    ensures |Encoded(parts)| <= |Tiles(parts, long)|
    ensures |Encoded(parts)| == |Tiles(parts, long)| <==>
            forall i :: 0 <= i < |parts| ==> (long[i] ==> |parts[i]| >= UINT8_MAX)
    ensures |Encoded(parts)| == |Tiles(parts, long)| ==> Encoded(parts) == Tiles(parts, long)
  {
    if parts != [] {
      Shorter(parts[1..], long[1..]);
      assert forall i :: 1 <= i < |parts| ==> parts[i] == parts[1..][i - 1] && long[i] == long[1..][i - 1];
    }
  }

  // Out and back, through the buffers.
  method Reflect(parts: seq<Part>) returns (r: Result<seq<Part>>)
    ensures r == if Small(parts) then Ok(parts) else RangeError
  {
    var e := Encode(parts);
    if e.RangeError? {
      return RangeError;
    }
    RoundTrip(parts);
    r := Decode(e.value[..]);
  }
}
